/** Writers that overwrite a counter with what they once read: how often a new one can
    start before the counter is full, if only so many may be under way.

    A counter stands at some distance from its limit; at distance 0 no writer may start.
    A writer under way either has still to read, or holds the distance that its write will
    leave: one less than what it read. A write may thus set the counter back. The
    potential below bounds the starts that are still to come. */
module StaleWrites {
  import opened Common
  import opened LatticePaths

  /** How many writers hold a distance of at least j; one that has still to read counts as -1. */
  function AtLeast(levels: seq<int>, j: int): (n: nat)
    ensures n <= |levels|
  {
    if levels == [] then 0 else AtLeast(Init(levels), j) + if Last(levels) >= j then 1 else 0
  }

  function Without<T>(s: seq<T>, i: nat): seq<T>
    requires i < |s|
  {
    s[..i] + s[i + 1..]
  }

  lemma {:induction false} AtLeastConcat(a: seq<int>, b: seq<int>, j: int)
    ensures AtLeast(a + b, j) == AtLeast(a, j) + AtLeast(b, j)
  {
    if b == [] {
      assert a + b == a;
    } else {
      AtLeastConcat(a, Init(b), j);
      assert Init(a + b) == a + Init(b);
    }
  }

  lemma AtLeastParts(levels: seq<int>, i: nat, j: int)
    requires i < |levels|
    ensures AtLeast(levels, j) == AtLeast(Without(levels, i), j) + if levels[i] >= j then 1 else 0
  {
    var a, x, b := levels[..i], [levels[i]], levels[i + 1..];
    AtLeastConcat(a, x, j);
    AtLeastConcat(a + x, b, j);
    AtLeastConcat(a, b, j);
    assert levels == a + x + b;
    assert Init(x) == [];
  }

  lemma AtLeastUpdate(levels: seq<int>, i: nat, x: int, j: int)
    requires i < |levels|
    ensures AtLeast(levels[i := x], j)
            == AtLeast(levels, j) - (if levels[i] >= j then 1 else 0) + (if x >= j then 1 else 0)
  {
    AtLeastParts(levels, i, j);
    AtLeastParts(levels[i := x], i, j);
    assert Without(levels[i := x], i) == Without(levels, i);
  }

  lemma {:induction false} AtLeastAntitone(levels: seq<int>, i: int, j: int)
    requires i <= j
    ensures AtLeast(levels, j) <= AtLeast(levels, i)
  {
    if levels != [] { AtLeastAntitone(Init(levels), i, j); }
  }

  lemma {:induction false} NoneAtLeast(levels: seq<int>, j: int)
    requires forall i | 0 <= i < |levels| :: levels[i] < j
    ensures AtLeast(levels, j) == 0
  {
    if levels != [] { NoneAtLeast(Init(levels), j); }
  }

  // --------------------------------------------------------- the potential

  function Holders(levels: seq<int>): nat { AtLeast(levels, 0) }

  /** A holder is worth at least what reading the counter now would be. */
  function Worth(levels: seq<int>, row: nat, j: nat): (n: nat)
    ensures AtLeast(levels, j) <= n <= Holders(levels)
  {
    AtLeastAntitone(levels, 0, j);
    if j < row then Holders(levels) else AtLeast(levels, j)
  }

  /** What the holders may still bring, from the distances 1..j. */
  function Held(levels: seq<int>, row: nat, c: nat, j: nat): int
    requires Holders(levels) <= c
  {
    if j == 0 then 0
    else Held(levels, row, c, j - 1) + Rise(c, j) - Rise(c - Worth(levels, row, j), j)
  }

  /** Starts still to come, with at most c writers under way, `unread` of them still to read. */
  function Potential(levels: seq<int>, row: nat, unread: int, c: nat, max: nat): int
    requires Holders(levels) <= c
  {
    (if row == 0 then 0 else Paths(c - Holders(levels), row) - 1 - unread) + Held(levels, row, c, max)
  }

  lemma {:induction false} HeldNonNegative(levels: seq<int>, row: nat, c: nat, j: nat)
    requires Holders(levels) <= c
    ensures Held(levels, row, c, j) >= 0
  {
    if j > 0 {
      HeldNonNegative(levels, row, c, j - 1);
      RiseMonotone(c - Worth(levels, row, j), c, j);
    }
  }

  lemma PotentialNonNegative(levels: seq<int>, row: nat, unread: int, c: nat, max: nat)
    requires 0 <= unread && unread + Holders(levels) <= c
    ensures Potential(levels, row, unread, c, max) >= 0
  {
    HeldNonNegative(levels, row, c, max);
    if row > 0 {
      NarrowPaths(c - Holders(levels));
      PathsMonotone(c - Holders(levels), 1, row);
    }
  }

  /** Only the counts matter. */
  lemma {:induction false} HeldSame(a: seq<int>, b: seq<int>, row: nat, c: nat, j: nat)
    requires Holders(a) == Holders(b) <= c && forall i | 1 <= i <= j :: AtLeast(a, i) == AtLeast(b, i)
    ensures Held(a, row, c, j) == Held(b, row, c, j)
  {
    hide Rise;
    if j > 0 { HeldSame(a, b, row, c, j - 1); }
  }

  // ------------------------------------------------------------- a read

  lemma {:induction false} HeldRead(levels: seq<int>, i: nat, x: nat, row: nat, c: nat, j: nat)
    requires i < |levels| && levels[i] < 0 && x < row && Holders(levels) < c
    ensures Holders(levels[i := x]) == Holders(levels) + 1
    ensures var s, n := c - Holders(levels), Min(j, row - 1);
            Held(levels[i := x], row, c, j) == Held(levels, row, c, j) + Rises(s, n) - Rises(s - 1, n)
  {
    hide Paths;
    AtLeastUpdate(levels, i, x, 0);
    if j == 0 {
      NarrowPaths(c - Holders(levels));
      NarrowPaths(c - Holders(levels) - 1);
    } else {
      HeldRead(levels, i, x, row, c, j - 1);
      AtLeastUpdate(levels, i, x, j);
    }
  }

  /** Reading costs nothing: what the reader will hold is worth the place it takes. */
  lemma ReadKeeps(levels: seq<int>, i: nat, x: nat, row: nat, unread: int, c: nat, max: nat)
    requires i < |levels| && levels[i] < 0 && x <= row && (row > 0 ==> x < row) && row <= max && Holders(levels) < c
    ensures Holders(levels[i := x]) == Holders(levels) + 1
    ensures Potential(levels[i := x], row, unread - 1, c, max) == Potential(levels, row, unread, c, max)
  {
    hide Held, Paths;
    AtLeastUpdate(levels, i, x, 0);
    if row > 0 {
      HeldRead(levels, i, x, row, c, max);
      assert Min(max, row - 1) == row - 1;
    } else {
      forall j | 1 <= j <= max ensures AtLeast(levels[i := x], j) == AtLeast(levels, j) {
        AtLeastUpdate(levels, i, x, j);
      }
      LockedRead(levels, levels[i := x], c, max);
    }
  }

  lemma {:induction false} LockedRead(a: seq<int>, b: seq<int>, c: nat, j: nat)
    requires Holders(a) <= c && Holders(b) <= c && forall i | 1 <= i <= j :: AtLeast(a, i) == AtLeast(b, i)
    ensures Held(a, 0, c, j) == Held(b, 0, c, j)
  {
    hide Rise;
    if j > 0 { LockedRead(a, b, c, j - 1); }
  }

  // -------------------------------------------------- a holder worth less

  lemma {:induction false} HeldLower(levels: seq<int>, i: nat, x: nat, row: nat, c: nat, j: nat)
    requires i < |levels| && x <= levels[i] && Holders(levels) <= c
    ensures Holders(levels[i := x]) == Holders(levels)
    ensures Held(levels[i := x], row, c, j) <= Held(levels, row, c, j)
  {
    AtLeastUpdate(levels, i, x, 0);
    if j > 0 {
      HeldLower(levels, i, x, row, c, j - 1);
      AtLeastUpdate(levels, i, x, j);
      RiseMonotone(c - Worth(levels, row, j), c - Worth(levels[i := x], row, j), j);
    }
  }

  // ------------------------------------------------------------- a write

  /** Below the written distance every holder is now worth a read. */
  lemma {:induction false} HeldWriteBelow(levels: seq<int>, i: nat, row: nat, c: nat, j: nat)
    requires i < |levels| && 0 <= j < levels[i] && Holders(levels) <= c
    ensures Holders(Without(levels, i)) == Holders(levels) - 1 && AtLeast(levels, levels[i]) <= Holders(levels)
    ensures var s, w := c - Holders(levels), c - AtLeast(levels, levels[i]);
            Held(Without(levels, i), levels[i], c, j) <= Held(levels, row, c, j) + Rises(w, j) - Rises(s + 1, j)
  {
    hide Paths;
    AtLeastParts(levels, i, 0);
    AtLeastAntitone(levels, 0, levels[i]);
    var s, w := c - Holders(levels), c - AtLeast(levels, levels[i]);
    if j == 0 {
      NarrowPaths(w);
      NarrowPaths(s + 1);
    } else {
      HeldWriteBelow(levels, i, row, c, j - 1);
      AtLeastAntitone(levels, j, levels[i]);
      RiseMonotone(c - Worth(levels, row, j), w, j);
    }
  }

  /** At and above it nobody gains, and the writer's own share is gone. */
  lemma {:induction false} HeldWrite(levels: seq<int>, i: nat, row: nat, c: nat, j: nat)
    requires i < |levels| && 0 <= levels[i] <= j && Holders(levels) <= c
    ensures Holders(Without(levels, i)) == Holders(levels) - 1
    ensures var s, x := c - Holders(levels), levels[i];
            Held(Without(levels, i), x, c, j) <= Held(levels, row, c, j) - if x == 0 then 0 else Paths(s + 1, x) - 1
    decreases j
  {
    hide Paths, Rise;
    var x, rest := levels[i], Without(levels, i);
    AtLeastParts(levels, i, 0);
    if j > 0 {
      AtLeastParts(levels, i, j);
      if x < j {
        HeldWrite(levels, i, row, c, j - 1);
        RiseMonotone(c - Worth(levels, row, j), c - Worth(rest, x, j), j);
      } else {
        HeldWriteBelow(levels, i, row, c, j - 1);
        WriterLeaves(c - Holders(levels), c - AtLeast(levels, x), x);
        RiseMonotone(c - Worth(levels, row, x), c - AtLeast(levels, x), x);
      }
    }
  }

  lemma WriterLeaves(s: nat, w: nat, x: nat)
    requires s <= w && x > 0
    ensures Rises(w, x - 1) - Rises(s + 1, x - 1) + Rise(w, x) - Rise(w + 1, x) <= 1 - Paths(s + 1, x)
  {
    hide Paths;
    RiseStep(w, x);
  }

  /** A write never raises the potential, however far it sets the counter back. */
  lemma WriteKeeps(levels: seq<int>, i: nat, row: nat, unread: int, c: nat, max: nat)
    requires i < |levels| && 0 <= levels[i] <= max && 0 <= unread && unread + Holders(levels) <= c
    ensures Holders(Without(levels, i)) == Holders(levels) - 1
    ensures Potential(Without(levels, i), levels[i], unread, c, max) <= Potential(levels, row, unread, c, max)
  {
    hide Held, Paths;
    HeldWrite(levels, i, row, c, max);
    if row > 0 {
      NarrowPaths(c - Holders(levels));
      PathsMonotone(c - Holders(levels), 1, row);
    }
  }

  // -------------------------------------------------------- where it starts

  lemma {:induction false} HeldAtMost(levels: seq<int>, row: nat, c: nat, j: nat)
    requires Holders(levels) <= c
    ensures Held(levels, row, c, j) <= Rises(c, j) - Rises(c - Holders(levels), j)
  {
    hide Paths;
    if j == 0 {
      NarrowPaths(c);
      NarrowPaths(c - Holders(levels));
    } else {
      HeldAtMost(levels, row, c, j - 1);
      RiseMonotone(c - Holders(levels), c - Worth(levels, row, j), j);
    }
  }

  /** Whatever is held, with a place left over: at most (c + max + 1 over c) - c - 1. */
  lemma PotentialAtMost(levels: seq<int>, row: nat, unread: int, c: nat, max: nat)
    requires Holders(levels) < c && row <= max && unread >= 0
    ensures Potential(levels, row, unread, c, max) <= Paths(c, max + 1) - c - 1
  {
    hide Held, Paths;
    var s := c - Holders(levels);
    HeldAtMost(levels, row, c, max);
    PathsMonotone(s, row, max);
    RiseMonotone(s, s, max);
  }

  lemma NothingOnTop(levels: seq<int>, row: nat, c: nat, max: nat)
    requires Holders(levels) <= c && row <= max && max >= 1 && forall i | 0 <= i < |levels| :: levels[i] < max
    ensures Held(levels, row, c, max) == Held(levels, row, c, max - 1)
  {
    hide Rise;
    NoneAtLeast(levels, max);
  }

  /** When nothing held is worth more than a read of the empty counter: at most (c + max over c) - 1. */
  lemma QuietPotentialAtMost(levels: seq<int>, row: nat, unread: int, c: nat, max: nat)
    requires Holders(levels) < c && row <= max && unread >= 0 && max >= 1
    requires forall i | 0 <= i < |levels| :: levels[i] < max
    ensures Potential(levels, row, unread, c, max) <= Paths(c, max) - 1
  {
    hide Paths, Held;
    var s := c - Holders(levels);
    HeldAtMost(levels, row, c, max - 1);
    NothingOnTop(levels, row, c, max);
    PathsMonotone(s, row, max);
    PathsMonotone(s, 1, max);
    NarrowPaths(s);
  }
}
