/**
 Insert/delete edit distance on an unbounded grid.

 Dist(a, b, x, y) is the cost of the cheapest path of single-step moves right and
 down from (0, 0) to (x, y), where a diagonal step over equal characters is free.
 Beyond the ends of the strings there are no free steps.
 */
module EditDistance {

  // The step from (x, y) to (x + 1, y + 1) is free.
  predicate Match(a: string, b: string, x: nat, y: nat) {
    x < |a| && y < |b| && a[x] == b[y]
  }

  function Min(x: nat, y: nat): nat {
    if x < y then x else y
  }

  function Dist(a: string, b: string, x: nat, y: nat): nat
    decreases x + y
  {
    if x == 0 then y
    else if y == 0 then x
    else if Match(a, b, x - 1, y - 1) then Dist(a, b, x - 1, y - 1)
    else 1 + Min(Dist(a, b, x - 1, y), Dist(a, b, x, y - 1))
  }

  // Neighbouring points differ by exactly one.
  lemma {:induction false} Adjacent(a: string, b: string, x: nat, y: nat)
    ensures Dist(a, b, x + 1, y) == Dist(a, b, x, y) - 1 || Dist(a, b, x + 1, y) == Dist(a, b, x, y) + 1
    ensures Dist(a, b, x, y + 1) == Dist(a, b, x, y) - 1 || Dist(a, b, x, y + 1) == Dist(a, b, x, y) + 1
    decreases x + y
  {
    hide Match;
    if y > 0 {
      Adjacent(a, b, x, y - 1);
    }
    if x > 0 {
      Adjacent(a, b, x - 1, y);
    }
  }

  // Going down a diagonal never gets cheaper.
  lemma {:induction false} DiagonalMonotone(a: string, b: string, x: nat, y: nat, k: nat)
    ensures Dist(a, b, x, y) <= Dist(a, b, x + k, y + k)
    decreases k
  {
    if k > 0 {
      Adjacent(a, b, x, y);
      DiagonalMonotone(a, b, x + 1, y + 1, k - 1);
    }
  }

  // k characters match in a row from (x, y) on.
  predicate MatchRun(a: string, b: string, x: nat, y: nat, k: nat) {
    x + k <= |a| && y + k <= |b| && a[x..x + k] == b[y..y + k]
  }

  lemma SliceLast(s: string, from: nat, k: nat)
    requires 0 < k && from + k <= |s|
    ensures s[from..from + k][k - 1] == s[from + k - 1]
    ensures s[from..from + k][..k - 1] == s[from..from + (k - 1)]
  {
  }

  lemma {:induction false} SnakeDist(a: string, b: string, x: nat, y: nat, k: nat)
    requires MatchRun(a, b, x, y, k)
    ensures Dist(a, b, x + k, y + k) == Dist(a, b, x, y)
    decreases k
  {
    if k > 0 {
      SliceLast(a, x, k);
      SliceLast(b, y, k);
      SnakeDist(a, b, x, y, k - 1);
    }
  }

  // Moving by (dx, dy) costs at most dx + dy.
  lemma {:induction false} Lipschitz(a: string, b: string, x: nat, y: nat, dx: nat, dy: nat)
    ensures Dist(a, b, x + dx, y + dy) <= Dist(a, b, x, y) + dx + dy
    decreases dx + dy
  {
    if dx > 0 {
      Lipschitz(a, b, x, y, dx - 1, dy);
      Adjacent(a, b, x + dx - 1, y + dy);
    } else if dy > 0 {
      Lipschitz(a, b, x, y, dx, dy - 1);
      Adjacent(a, b, x + dx, y + dy - 1);
    }
  }

  // A path needs at least one edit per diagonal it leaves behind.
  lemma {:induction false} DiagonalBound(a: string, b: string, x: nat, y: nat)
    ensures x - y <= Dist(a, b, x, y) && y - x <= Dist(a, b, x, y) <= x + y
    decreases x + y
  {
    if x > 0 && y > 0 {
      DiagonalBound(a, b, x - 1, y - 1);
      DiagonalBound(a, b, x - 1, y);
      DiagonalBound(a, b, x, y - 1);
    }
  }

  // The parity of a path's cost is that of its end point's diagonal.
  lemma {:induction false} Parity(a: string, b: string, x: nat, y: nat)
    ensures (Dist(a, b, x, y) + x + y) % 2 == 0
    decreases x + y
  {
    hide Dist, Match;
    if x > 0 && y > 0 {
      DistStep(a, b, x, y);
      Parity(a, b, x - 1, y - 1);
      Parity(a, b, x - 1, y);
      Parity(a, b, x, y - 1);
      TwoMore(Dist(a, b, x - 1, y - 1) + (x - 1) + (y - 1));
      TwoMore(Dist(a, b, x - 1, y) + (x - 1) + y);
      TwoMore(Dist(a, b, x, y - 1) + x + (y - 1));
    } else {
      DistEdge(a, b, x, y);
      TwoMore(2 * (x + y));
    }
  }

  lemma TwoMore(n: nat)
    requires n % 2 == 0
    ensures (n + 2) % 2 == 0
  {
  }

  lemma DistEdge(a: string, b: string, x: nat, y: nat)
    requires x == 0 || y == 0
    ensures Dist(a, b, x, y) == x + y
  {
  }

  lemma DistStep(a: string, b: string, x: nat, y: nat)
    requires x > 0 && y > 0
    ensures if Match(a, b, x - 1, y - 1) then Dist(a, b, x, y) == Dist(a, b, x - 1, y - 1)
      else Dist(a, b, x, y) == 1 + Dist(a, b, x - 1, y) || Dist(a, b, x, y) == 1 + Dist(a, b, x, y - 1)
  {
    hide Match;
  }

  // Beyond the end of a string every step costs.
  lemma {:induction false} BeyondRight(a: string, b: string, x: nat, y: nat)
    requires |a| <= x
    ensures Dist(a, b, x, y) == Dist(a, b, |a|, y) + (x - |a|)
    decreases x + y
  {
    if x > |a| && y > 0 {
      BeyondRight(a, b, x - 1, y);
      BeyondRight(a, b, x, y - 1);
      Adjacent(a, b, |a|, y - 1);
    }
  }

  lemma {:induction false} BeyondBottom(a: string, b: string, x: nat, y: nat)
    requires |b| <= y
    ensures Dist(a, b, x, y) == Dist(a, b, x, |b|) + (y - |b|)
    decreases x + y
  {
    if y > |b| && x > 0 {
      BeyondBottom(a, b, x, y - 1);
      BeyondBottom(a, b, x - 1, y);
      Adjacent(a, b, x - 1, |b|);
    }
  }

  // -------------------------------------------------- paths from the far end

  function Rev(s: string): (r: string)
    ensures |r| == |s|
  {
    seq(|s|, i requires 0 <= i < |s| => s[|s| - 1 - i])
  }

  lemma RevAt(s: string, i: nat)
    requires i < |s|
    ensures Rev(s)[i] == s[|s| - 1 - i]
  {
  }

  lemma RevRev(s: string)
    ensures Rev(Rev(s)) == s
  {
  }

  // The distance from one end to the other.
  function Total(a: string, b: string): nat {
    Dist(a, b, |a|, |b|)
  }

  // The cost from (x, y) to the far corner.
  function Rest(a: string, b: string, x: nat, y: nat): nat
    requires x <= |a| && y <= |b|
  {
    Dist(Rev(a), Rev(b), |a| - x, |b| - y)
  }

  // Any intermediate point makes for a path at least as long.
  lemma {:induction false} Triangle(a: string, b: string, x: nat, y: nat)
    requires x <= |a| && y <= |b|
    ensures Total(a, b) <= Dist(a, b, x, y) + Rest(a, b, x, y)
    decreases |a| - x + |b| - y
  {
    if x == |a| {
      Lipschitz(a, b, x, y, 0, |b| - y);
    } else if y == |b| {
      Lipschitz(a, b, x, y, |a| - x, 0);
    } else if a[x] == b[y] {
      assert Match(a, b, x, y) && Match(Rev(a), Rev(b), |a| - x - 1, |b| - y - 1);
      Triangle(a, b, x + 1, y + 1);
    } else {
      Triangle(a, b, x + 1, y);
      Triangle(a, b, x, y + 1);
      Adjacent(a, b, x, y);
    }
  }

  lemma TotalRev(a: string, b: string)
    ensures Total(Rev(a), Rev(b)) == Total(a, b)
  {
    Triangle(a, b, 0, 0);
    Triangle(Rev(a), Rev(b), 0, 0);
    RevRev(a);
    RevRev(b);
  }

  // (x, y) lies on an optimal path from end to end.
  ghost predicate OnPath(a: string, b: string, x: nat, y: nat) {
    x <= |a| && y <= |b| && Dist(a, b, x, y) + Rest(a, b, x, y) == Total(a, b)
  }

  lemma PathLeft(a: string, b: string, x: nat, y: nat)
    requires x > 0 && OnPath(a, b, x, y) && Dist(a, b, x - 1, y) < Dist(a, b, x, y)
    ensures OnPath(a, b, x - 1, y) && Dist(a, b, x - 1, y) == Dist(a, b, x, y) - 1
  {
    hide Dist;
    Adjacent(Rev(a), Rev(b), |a| - x, |b| - y);
    Adjacent(a, b, x - 1, y);
    Triangle(a, b, x - 1, y);
  }

  lemma PathUp(a: string, b: string, x: nat, y: nat)
    requires y > 0 && OnPath(a, b, x, y) && Dist(a, b, x, y - 1) < Dist(a, b, x, y)
    ensures OnPath(a, b, x, y - 1) && Dist(a, b, x, y - 1) == Dist(a, b, x, y) - 1
  {
    hide Dist;
    Adjacent(Rev(a), Rev(b), |a| - x, |b| - y);
    Adjacent(a, b, x, y - 1);
    Triangle(a, b, x, y - 1);
  }

  // An optimal path passes through a point of every cost in between.
  lemma {:induction false} Halfway(a: string, b: string, x: nat, y: nat, d: nat) returns (u: nat, v: nat)
    requires OnPath(a, b, x, y) && d <= Dist(a, b, x, y)
    ensures OnPath(a, b, u, v) && Dist(a, b, u, v) == d
    decreases x + y
  {
    if Dist(a, b, x, y) == d {
      return x, y;
    }
    if x > 0 && y > 0 && Match(a, b, x - 1, y - 1) {
      assert Match(Rev(a), Rev(b), |a| - x, |b| - y);
      u, v := Halfway(a, b, x - 1, y - 1, d);
    } else if y == 0 || (x > 0 && Dist(a, b, x - 1, y) < Dist(a, b, x, y)) {
      PathLeft(a, b, x, y);
      u, v := Halfway(a, b, x - 1, y, d);
    } else {
      PathUp(a, b, x, y);
      u, v := Halfway(a, b, x, y - 1, d);
    }
  }

  // ------------------------------------------------- common subsequences

  // p lists positions of equal characters, in increasing order in both strings,
  // all of them left of x and above y.
  ghost predicate CommonSubsequence(a: string, b: string, p: seq<(nat, nat)>, x: nat, y: nat) {
    && x <= |a| && y <= |b|
    && (forall i: nat | i < |p| :: p[i].0 < x && p[i].1 < y && a[p[i].0] == b[p[i].1])
    && (forall i: nat, j: nat | i < j < |p| :: p[i].0 < p[j].0 && p[i].1 < p[j].1)
  }

  // No common subsequence saves more than the distance leaves to be saved.
  lemma {:induction false} CommonBound(a: string, b: string, p: seq<(nat, nat)>, x: nat, y: nat)
    requires CommonSubsequence(a, b, p, x, y)
    ensures Dist(a, b, x, y) + 2 * |p| <= x + y
    decreases |p|
  {
    if |p| == 0 {
      DiagonalBound(a, b, x, y);
    } else {
      var n := |p| - 1;
      var (i, j) := p[n];
      CommonBound(a, b, p[..n], i, j);
      assert Match(a, b, i, j);
      Lipschitz(a, b, i + 1, j + 1, x - i - 1, y - j - 1);
    }
  }

  // And some common subsequence saves that much.
  lemma {:induction false} CommonReached(a: string, b: string, x: nat, y: nat) returns (p: seq<(nat, nat)>)
    requires x <= |a| && y <= |b|
    ensures CommonSubsequence(a, b, p, x, y) && Dist(a, b, x, y) + 2 * |p| == x + y
    decreases x + y
  {
    if x == 0 || y == 0 {
      p := [];
    } else if Match(a, b, x - 1, y - 1) {
      p := CommonReached(a, b, x - 1, y - 1);
      p := p + [(x - 1, y - 1)];
    } else if Dist(a, b, x - 1, y) < Dist(a, b, x, y - 1) {
      p := CommonReached(a, b, x - 1, y);
    } else {
      p := CommonReached(a, b, x, y - 1);
    }
  }

  // ---------------------------------------------------------- substrings

  // Distances within the grid depend on the characters before them only.
  lemma {:induction false} DistPrefix(a: string, b: string, a': string, b': string, x: nat, y: nat)
    requires x <= |a| && y <= |b| && x <= |a'| && y <= |b'|
    requires a[..x] == a'[..x] && b[..y] == b'[..y]
    ensures Dist(a, b, x, y) == Dist(a', b', x, y)
    decreases x + y
  {
    if x > 0 && y > 0 {
      assert a[..x - 1] == a[..x][..x - 1] == a'[..x][..x - 1] == a'[..x - 1];
      assert b[..y - 1] == b[..y][..y - 1] == b'[..y][..y - 1] == b'[..y - 1];
      assert a[x - 1] == a[..x][x - 1] == a'[x - 1] && b[y - 1] == b[..y][y - 1] == b'[y - 1];
      DistPrefix(a, b, a', b', x - 1, y - 1);
      DistPrefix(a, b, a', b', x - 1, y);
      DistPrefix(a, b, a', b', x, y - 1);
    }
  }

  // The part before a point, compared on its own.
  lemma TotalBefore(a: string, b: string, x: nat, y: nat)
    requires x <= |a| && y <= |b|
    ensures Total(a[..x], b[..y]) == Dist(a, b, x, y)
  {
    DistPrefix(a, b, a[..x], b[..y], x, y);
  }

  // The part after a point, compared on its own.
  lemma TotalAfter(a: string, b: string, x: nat, y: nat)
    requires x <= |a| && y <= |b|
    ensures Total(a[x..], b[y..]) == Rest(a, b, x, y)
  {
    TotalRev(a[x..], b[y..]);
    assert Rev(a)[..|a| - x] == Rev(a[x..]) && Rev(b)[..|b| - y] == Rev(b[y..]);
    TotalBefore(Rev(a), Rev(b), |a| - x, |b| - y);
  }

  // Without edits the strings agree.
  lemma {:induction false} ZeroPrefix(a: string, b: string, n: nat)
    requires n <= |a| && n <= |b| && Dist(a, b, n, n) == 0
    ensures MatchRun(a, b, 0, 0, n)
  {
    if n > 0 {
      ZeroPrefix(a, b, n - 1);
      assert a[0..n] == a[0..n - 1] + [a[n - 1]] && b[0..n] == b[0..n - 1] + [b[n - 1]];
    }
  }

  lemma SliceOfSlice(s: string, from: nat, n: nat, x: nat, k: nat)
    requires from + n <= |s| && x + k <= n
    ensures s[from + x..(from + x) + k] == s[from..from + n][x..x + k]
  {
    var u, v := s[from + x..(from + x) + k], s[from..from + n];
    forall i: nat | i < k ensures u[i] == v[x..x + k][i] {
      assert v[x..x + k][i] == v[x + i] == s[from + (x + i)];
    }
  }

  // A run in two substrings is a run in the strings.
  lemma RunInside(s: string, t: string, A: nat, N: nat, B: nat, M: nat, x: nat, y: nat, k: nat)
    requires A + N <= |s| && B + M <= |t|
    requires MatchRun(s[A..A + N], t[B..B + M], x, y, k)
    ensures MatchRun(s, t, A + x, B + y, k)
  {
    SliceOfSlice(s, A, N, x, k);
    SliceOfSlice(t, B, M, y, k);
  }
}
