/**
 Furthest-reaching paths, diagonal by diagonal, and where a forward and a reverse
 one meet.
 */
module FurthestPaths {
  import opened EditDistance

  // Among the points of diagonal k (those with x - y == k) that d edits can reach,
  // (x, x - k) is the furthest.
  ghost predicate Furthest(a: string, b: string, d: nat, k: int, x: int) {
    && 0 <= x && k <= x
    && Dist(a, b, x, x - k) <= d < Dist(a, b, x + 1, x + 1 - k)
  }

  lemma Beyond(a: string, b: string, d: nat, k: int, w: int, x: int)
    requires Furthest(a, b, d, k, w) && w < x
    ensures Dist(a, b, x, x - k) > d
  {
    hide Dist;
    DiagonalMonotone(a, b, w + 1, w + 1 - k, x - w - 1);
  }

  lemma Within(a: string, b: string, d: nat, k: int, w: int, x: int)
    requires Furthest(a, b, d, k, w) && 0 <= x <= w && k <= x
    ensures Dist(a, b, x, x - k) <= d
  {
    hide Dist;
    DiagonalMonotone(a, b, x, x - k, w - x);
  }

  // Diagonals further out than d take more than d edits to get to.
  predicate InReach(d: int, k: int) {
    k <= d && 0 <= d + k
  }

  // Diagonal k is out of reach of d edits, or w is their furthest point on it.
  ghost predicate Known(a: string, b: string, d: nat, k: int, w: int) {
    InReach(d, k) ==> Furthest(a, b, d, k, w)
  }

  lemma KnownBeyond(a: string, b: string, d: nat, k: int, w: int, x: int)
    requires Known(a, b, d, k, w) && 0 <= x && k <= x
    requires InReach(d, k) ==> w < x
    ensures Dist(a, b, x, x - k) > d
  {
    hide Dist;
    if InReach(d, k) {
      Beyond(a, b, d, k, w, x);
    } else {
      DiagonalBound(a, b, x, x - k);
    }
  }

  // Where the furthest path of d + 1 edits on diagonal k starts its last snake:
  // right of the furthest on k - 1, or below the furthest on k + 1.
  function Start(d: nat, k: int, left: int, above: int): int {
    if k + d + 1 == 0 || (k != d + 1 && left < above) then above else left + 1
  }

  lemma StartReached(a: string, b: string, d: nat, k: int, left: int, above: int)
    requires InReach(d + 1, k)
    requires Known(a, b, d, k - 1, left) && Known(a, b, d, k + 1, above)
    requires InReach(d, k - 1) || InReach(d, k + 1)
    requires k + d + 1 != 0 ==> InReach(d, k - 1)
    requires k != d + 1 ==> InReach(d, k + 1)
    ensures var x := Start(d, k, left, above);
      && 0 <= x && k <= x && Dist(a, b, x, x - k) <= d + 1
      && (InReach(d, k - 1) ==> left < x) && (InReach(d, k + 1) ==> above < x + 1)
  {
    hide Dist;
    if k + d + 1 == 0 || (k != d + 1 && left < above) {
      Adjacent(a, b, above, above - (k + 1));
    } else {
      Adjacent(a, b, left, left - (k - 1));
    }
  }

  // Characters match all the way down diagonal k from s to x.
  predicate Slid(a: string, b: string, k: int, s: int, x: int) {
    0 <= s <= x && k <= s && (s == x || MatchRun(a, b, s, s - k, x - s))
  }

  lemma SlidDist(a: string, b: string, k: int, s: int, x: int)
    requires Slid(a, b, k, s, x)
    ensures Dist(a, b, x, x - k) == Dist(a, b, s, s - k)
  {
    hide Dist;
    if s != x {
      SnakeDist(a, b, s, s - k, x - s);
    }
  }

  // Where a diagonal stops matching, the next point of it is one edit away from
  // the cheaper of its neighbours.
  lemma NoMatchDist(a: string, b: string, d: nat, x: nat, y: nat)
    requires !Match(a, b, x, y) && Dist(a, b, x, y + 1) > d && Dist(a, b, x + 1, y) > d
    ensures Dist(a, b, x + 1, y + 1) > d + 1
  {
  }

  // Sliding down from there as far as characters match gives the furthest point.
  lemma FurthestStep(a: string, b: string, d: nat, k: int, left: int, above: int, x: int)
    requires InReach(d + 1, k)
    requires Known(a, b, d, k - 1, left) && Known(a, b, d, k + 1, above)
    requires k + d + 1 != 0 ==> InReach(d, k - 1)
    requires k != d + 1 ==> InReach(d, k + 1)
    requires Slid(a, b, k, Start(d, k, left, above), x)
    requires !Match(a, b, x, x - k)
    ensures Furthest(a, b, d + 1, k, x)
  {
    hide Dist, Match;
    StartReached(a, b, d, k, left, above);
    SlidDist(a, b, k, Start(d, k, left, above), x);
    KnownBeyond(a, b, d, k - 1, left, x);
    KnownBeyond(a, b, d, k + 1, above, x + 1);
    NoMatchDist(a, b, d, x, x - k);
  }

  // With no edits at all only the main diagonal is in reach.
  lemma FurthestStart(a: string, b: string, x: int)
    requires Slid(a, b, 0, 0, x) && !Match(a, b, x, x)
    ensures Furthest(a, b, 0, 0, x)
  {
    SlidDist(a, b, 0, 0, x);
  }

  // ---------------------------------------------------------------- meeting

  // A furthest forward path of d1 edits and a furthest reverse path of d2 edits
  // overlap on diagonal k.
  ghost predicate Meet(a: string, b: string, d1: nat, d2: nat, k: int, x: int, xr: int) {
    && Furthest(a, b, d1, k, x)
    && Furthest(Rev(a), Rev(b), d2, |a| - |b| - k, xr)
    && x + xr >= |a|
  }

  // The diagonal crosses the grid.
  lemma MeetInside(a: string, b: string, d1: nat, d2: nat, k: int, x: int, xr: int)
    requires Meet(a, b, d1, d2, k, x, xr) && d1 + d2 <= Total(a, b)
    ensures -|b| <= k <= |a|
  {
    hide Dist;
    DiagonalBound(a, b, x, x - k);
    DiagonalBound(Rev(a), Rev(b), xr, xr - (|a| - |b| - k));
    DiagonalBound(a, b, |a|, |b|);
  }

  // So the two paths join into one from end to end.
  lemma MeetOptimal(a: string, b: string, d1: nat, d2: nat, k: int, x: int, xr: int)
    requires Meet(a, b, d1, d2, k, x, xr) && d1 + d2 <= Total(a, b)
    ensures d1 + d2 == Total(a, b)
  {
    hide Dist;
    MeetInside(a, b, d1, d2, k, x, xr);
    var u := |a| - xr;
    var p := if u >= 0 && u >= k then u else if k > 0 then k else 0;
    Within(a, b, d1, k, x, p);
    Within(Rev(a), Rev(b), d2, |a| - |b| - k, xr, |a| - p);
    Triangle(a, b, p, p - k);
  }

  // The end of the forward path is inside the grid.
  lemma MeetCorner(a: string, b: string, d1: nat, d2: nat, k: int, x: int, xr: int)
    requires Meet(a, b, d1, d2, k, x, xr) && d1 + d2 <= Total(a, b)
    ensures x <= |a| && x - k <= |b|
  {
    hide Dist;
    var y := x - k;
    DiagonalBound(Rev(a), Rev(b), xr, xr - (|a| - |b| - k));
    if x > |a| {
      BeyondRight(a, b, x, y);
      if y <= |b| {
        Lipschitz(a, b, |a|, y, 0, |b| - y);
      } else {
        BeyondBottom(a, b, |a|, y);
      }
    } else if y > |b| {
      BeyondBottom(a, b, x, y);
      Lipschitz(a, b, x, |b|, |a| - x, 0);
    }
  }

  // Both ends of the forward path's last snake, from s to x, lie on an optimal
  // path, d1 edits from the near end and d2 from the far one.
  lemma MeetSnake(a: string, b: string, d1: nat, d2: nat, k: int, s: int, x: int, xr: int)
    requires Meet(a, b, d1, d2, k, x, xr) && d1 + d2 <= Total(a, b)
    requires Slid(a, b, k, s, x)
    ensures d1 + d2 == Total(a, b)
    ensures x <= |a| && x - k <= |b|
    ensures Dist(a, b, s, s - k) == d1 && Rest(a, b, x, x - k) == d2
  {
    hide Dist;
    MeetOptimal(a, b, d1, d2, k, x, xr);
    MeetCorner(a, b, d1, d2, k, x, xr);
    Within(Rev(a), Rev(b), d2, |a| - |b| - k, xr, |a| - x);
    Triangle(a, b, x, x - k);
    if s != x {
      SnakeDist(a, b, s, s - k, x - s);
    }
  }

  // When the total is d1 + d2 some diagonal has such an overlap: the one on which
  // an optimal path has its d1 first edits behind it, at (u, u - k).
  lemma MeetExists(a: string, b: string, d1: nat, d2: nat) returns (k: int, u: nat)
    requires Total(a, b) == d1 + d2
    ensures InReach(d1, k) && InReach(d2, |a| - |b| - k) && (k + d1) % 2 == 0
    ensures u <= |a| && 0 <= u - k <= |b|
    ensures Dist(a, b, u, u - k) <= d1 && Rest(a, b, u, u - k) <= d2
  {
    var v;
    assert OnPath(a, b, |a|, |b|);
    hide Dist;
    u, v := Halfway(a, b, |a|, |b|, d1);
    k := u as int - v as int;
    DiagonalBound(a, b, u, v);
    Parity(a, b, u, v);
    DiagonalBound(Rev(a), Rev(b), |a| - u, |b| - v);
  }

  lemma MeetForced(a: string, b: string, d1: nat, d2: nat, k: int, u: nat, x: int, xr: int)
    requires u <= |a| && 0 <= u - k <= |b|
    requires Dist(a, b, u, u - k) <= d1 && Rest(a, b, u, u - k) <= d2
    requires Furthest(a, b, d1, k, x) && Furthest(Rev(a), Rev(b), d2, |a| - |b| - k, xr)
    ensures x + xr >= |a|
  {
    hide Dist;
    if x < u {
      Beyond(a, b, d1, k, x, u);
    }
    if xr < |a| - u {
      Beyond(Rev(a), Rev(b), d2, |a| - |b| - k, xr, |a| - u);
    }
  }
}
