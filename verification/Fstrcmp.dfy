/**
 Fuzzy string comparison: the linear-space shortest edit script by middle snakes.
 */
module Fstrcmp {
  import opened EditDistance
  import opened FurthestPaths
  import opened SnakeLists

  // Entry k of a table whose row is centred on mid.
  function At(v: seq<int>, mid: nat, k: int): int {
    if 0 <= mid + k < |v| then v[mid + k] else 0
  }

  predicate SameParity(d: int, k: int) {
    (d + k) % 2 == 0
  }

  // The entries of one row for the paths of d edits, from diagonal -d up to but
  // not including hi: the reverse table counts its diagonals backwards.
  ghost predicate Row(a: string, b: string, v: seq<int>, mid: nat, d: nat, hi: int, back: bool) {
    && d <= mid && mid + d < |v|
    && forall k: int | InReach(d, k) && k < hi && SameParity(d, k) ::
         Furthest(a, b, d, if back then -k else k, At(v, mid, k))
  }

  // What the pass for D edits starts from.
  ghost predicate Ready(a: string, b: string, v: seq<int>, mid: nat, D: nat, back: bool) {
    && D <= mid && mid + D < |v|
    && if D == 0 then 1 <= mid && mid + 1 < |v| && At(v, mid, if back then -1 else 1) == 0
       else Row(a, b, v, mid, D - 1, D + 1, back)
  }

  // No overlap on the diagonals a forward pass has visited.
  ghost predicate NoneForward(a: string, b: string, v1: seq<int>, v2: seq<int>, mid: nat, D: nat, hi: int) {
    && D <= mid && mid + D < |v1| && mid + D < |v2|
    && forall k: int | InReach(D, k) && k < hi && SameParity(D, k) && InReach(D - 1, k - (|a| - |b|)) ::
         At(v1, mid, k) + At(v2, mid, k - (|a| - |b|)) < |a|
  }

  // No overlap on the diagonals a reverse pass has visited.
  ghost predicate NoneReverse(a: string, b: string, v1: seq<int>, v2: seq<int>, mid: nat, D: nat, hi: int) {
    && D <= mid && mid + D < |v1| && mid + D < |v2|
    && forall k: int | InReach(D, k) && k < hi && SameParity(D, k) && InReach(D, k + (|a| - |b|)) ::
         At(v2, mid, k) + At(v1, mid, k + (|a| - |b|)) < |a|
  }

  function Odd(a: string, b: string): nat {
    (|a| - |b|) % 2
  }

  // A forward pass over all diagonals that finds no overlap rules out one length.
  lemma ForwardExhausted(a: string, b: string, v1: seq<int>, v2: seq<int>, mid: nat, D: nat)
    requires D > 0 && Odd(a, b) == 1
    requires Row(a, b, v1, mid, D, D + 2, false) && Row(Rev(a), Rev(b), v2, mid, D - 1, D + 1, true)
    requires NoneForward(a, b, v1, v2, mid, D, D + 2)
    ensures Total(a, b) != 2 * D - 1
  {
    hide Furthest;
    if Total(a, b) == D + (D - 1) {
      var k, u := MeetExists(a, b, D, D - 1);
      var j := k - (|a| - |b|);
      assert SameParity(D - 1, j);
      assert Furthest(Rev(a), Rev(b), D - 1, -j, At(v2, mid, j));
      MeetForced(a, b, D, D - 1, k, u, At(v1, mid, k), At(v2, mid, j));
    }
  }

  lemma ReverseExhausted(a: string, b: string, v1: seq<int>, v2: seq<int>, mid: nat, D: nat)
    requires Odd(a, b) == 0
    requires Row(a, b, v1, mid, D, D + 2, false) && Row(Rev(a), Rev(b), v2, mid, D, D + 2, true)
    requires NoneReverse(a, b, v1, v2, mid, D, D + 2)
    ensures Total(a, b) != 2 * D
  {
    hide Furthest;
    if Total(a, b) == D + D {
      var k, u := MeetExists(a, b, D, D);
      var j := k - (|a| - |b|);
      assert SameParity(D, j);
      assert At(v2, mid, j) + At(v1, mid, j + (|a| - |b|)) < |a|;
      assert Furthest(Rev(a), Rev(b), D, -j, At(v2, mid, j));
      MeetForced(a, b, D, D, k, u, At(v1, mid, k), At(v2, mid, j));
    }
  }

  // A snake in the middle of an optimal path: half the edits come before it and
  // half after it.
  ghost predicate Middle(a: string, b: string, changes: int, ulx: int, uly: int, lrx: int, lry: int) {
    && 0 <= ulx <= lrx <= |a|
    && 0 <= uly <= lry <= |b|
    && lrx - ulx == lry - uly
    && MatchRun(a, b, ulx, uly, lrx - ulx)
    && changes == Total(a, b)
    && Dist(a, b, ulx, uly) == (changes + 1) / 2
    && Rest(a, b, lrx, lry) == changes / 2
  }

  // With at most one edit, the snake runs to the far corner, and the edit comes
  // right after a common prefix.
  ghost predicate Adjoins(a: string, b: string, changes: int, ulx: int, uly: int, lrx: int, lry: int) {
    && (changes <= 1 ==> lrx == |a| && lry == |b|)
    && (changes == 1 ==>
          if |a| > |b| then ulx == uly + 1 && uly >= 0 && Dist(a, b, uly, uly) == 0
          else uly == ulx + 1 && ulx >= 0 && Dist(a, b, ulx, ulx) == 0)
  }

  // What midsnake() promises.
  ghost predicate Optimal(a: string, b: string, changes: int, ulx: int, uly: int, lrx: int, lry: int) {
    Middle(a, b, changes, ulx, uly, lrx, lry) && Adjoins(a, b, changes, ulx, uly, lrx, lry)
  }

  lemma MiddleForward(a: string, b: string, D: nat, k: int, s: int, x: int, xr: int)
    requires D > 0 && Meet(a, b, D, D - 1, k, x, xr) && Slid(a, b, k, s, x)
    requires 2 * D - 1 <= Total(a, b)
    ensures Middle(a, b, 2 * D - 1, s, s - k, x, x - k)
  {
    hide Dist, Furthest;
    MeetSnake(a, b, D, D - 1, k, s, x, xr);
  }

  lemma RestRev(a: string, b: string, x: nat, y: nat)
    requires x <= |a| && y <= |b|
    ensures Rest(Rev(a), Rev(b), |a| - x, |b| - y) == Dist(a, b, x, y)
  {
    hide Dist, Rev;
    RevRev(a);
    RevRev(b);
    assert |a| - (|a| - x) == x && |b| - (|b| - y) == y;
  }

  lemma SnakeRev(a: string, b: string, x: nat, y: nat, k: nat)
    requires MatchRun(Rev(a), Rev(b), x, y, k)
    ensures MatchRun(a, b, |a| - x - k, |b| - y - k, k)
  {
    var u, v := |a| - x - k, |b| - y - k;
    var s, t := a[u..u + k], b[v..v + k];
    forall i: nat | i < k ensures s[i] == t[i] {
      var j := k - 1 - i;
      RevAt(a, x + j);
      RevAt(b, y + j);
      assert Rev(a)[x..x + k][j] == Rev(b)[y..y + k][j];
    }
    assert s == t;
  }

  // The same, found from the far end: diagonal kr there is |a| - |b| - kr here.
  lemma MiddleReverse(a: string, b: string, D: nat, kr: int, s: int, xr: int, x: int)
    requires Meet(Rev(a), Rev(b), D, D, kr, xr, x) && Slid(Rev(a), Rev(b), kr, s, xr)
    requires 2 * D <= Total(a, b)
    ensures Middle(a, b, 2 * D, |a| - xr, |b| - (xr - kr), |a| - s, |b| - (s - kr))
  {
    hide Dist, Furthest;
    TotalRev(a, b);
    MeetSnake(Rev(a), Rev(b), D, D, kr, s, xr, x);
    RestRev(a, b, |a| - xr, |b| - (xr - kr));
    if s != xr {
      SnakeRev(a, b, s, s - kr, xr - s);
    }
  }

  lemma MeetRev(a: string, b: string, d: nat, kr: int, xr: int, x: int)
    requires Furthest(Rev(a), Rev(b), d, kr, xr) && Furthest(a, b, d, |a| - |b| - kr, x) && x + xr >= |a|
    ensures Meet(Rev(a), Rev(b), d, d, kr, xr, x)
  {
    hide Furthest;
    RevRev(a);
    RevRev(b);
  }

  lemma SlideNone(a: string, b: string, k: int, x: int)
    requires 0 <= x && k <= x
    ensures Slid(a, b, k, x, x)
  {
  }

  lemma SlideOne(a: string, b: string, k: int, s: int, x: int)
    requires Slid(a, b, k, s, x) && Match(a, b, x, x - k)
    ensures Slid(a, b, k, s, x + 1)
  {
    if s == x {
      assert a[x..x + 1] == [a[x]] && b[x - k..x - k + 1] == [b[x - k]];
    } else {
      assert a[s..x + 1] == a[s..x] + [a[x]];
      assert b[s - k..x + 1 - k] == b[s - k..x - k] + [b[x - k]];
    }
  }

  // Storing one more entry of the row for D edits.
  lemma RowStore(a: string, b: string, v: seq<int>, mid: nat, D: nat, k: int, x: int, back: bool)
    requires Row(a, b, v, mid, D, k, back) && InReach(D, k) && SameParity(D, k)
    requires Furthest(a, b, D, if back then -k else k, x)
    ensures Row(a, b, v[mid + k := x], mid, D, k + 2, back)
  {
  }

  // It leaves the row for D - 1 edits, which has the other parity, alone.
  lemma ReadyStore(a: string, b: string, v: seq<int>, mid: nat, D: nat, k: int, x: int, back: bool)
    requires Ready(a, b, v, mid, D, back) && InReach(D, k) && SameParity(D, k)
    ensures Ready(a, b, v[mid + k := x], mid, D, back)
  {
  }

  // The neighbours of entry k in a table that is ready for D > 0.
  lemma ReadyNeighbours(a: string, b: string, v: seq<int>, mid: nat, D: nat, k: int, back: bool)
    requires D > 0 && Ready(a, b, v, mid, D, back) && InReach(D, k) && SameParity(D, k)
    ensures InReach(D - 1, k - 1) ==> Furthest(a, b, D - 1, if back then -(k - 1) else k - 1, At(v, mid, k - 1))
    ensures InReach(D - 1, k + 1) ==> Furthest(a, b, D - 1, if back then -(k + 1) else k + 1, At(v, mid, k + 1))
    ensures D + k != 0 ==> InReach(D - 1, k - 1)
    ensures k != D ==> InReach(D - 1, k + 1)
  {
  }

  // Where a pass starts its snake on entry k, read off the table.
  function StartOf(v: seq<int>, mid: nat, D: nat, k: int, back: bool): int {
    if back then
      if k == D || (D + k != 0 && At(v, mid, k + 1) < At(v, mid, k - 1)) then At(v, mid, k - 1)
      else At(v, mid, k + 1) + 1
    else
      if D + k == 0 || (k != D && At(v, mid, k - 1) < At(v, mid, k + 1)) then At(v, mid, k + 1)
      else At(v, mid, k - 1) + 1
  }

  lemma BeginDiagonal(a: string, b: string, v: seq<int>, mid: nat, D: nat, k: int, back: bool)
    requires Ready(a, b, v, mid, D, back) && InReach(D, k) && SameParity(D, k)
    ensures var s, n := StartOf(v, mid, D, k, back), if back then -k else k;
      0 <= s && n <= s
  {
  }

  lemma EndDiagonal(a: string, b: string, v: seq<int>, mid: nat, D: nat, k: int, back: bool, x: int)
    requires Ready(a, b, v, mid, D, back) && InReach(D, k) && SameParity(D, k)
    requires var n := if back then -k else k;
      Slid(a, b, n, StartOf(v, mid, D, k, back), x) && !Match(a, b, x, x - n)
    ensures Furthest(a, b, D, if back then -k else k, x)
  {
    hide Furthest, Dist, Match, MatchRun, Ready;
    if D == 0 {
      EndFirst(a, b, v, mid, k, back, x);
    } else {
      EndNext(a, b, v, mid, D, k, back, x);
    }
  }

  lemma EndFirst(a: string, b: string, v: seq<int>, mid: nat, k: int, back: bool, x: int)
    requires Ready(a, b, v, mid, 0, back) && k == 0
    requires Slid(a, b, 0, StartOf(v, mid, 0, 0, back), x) && !Match(a, b, x, x)
    ensures Furthest(a, b, 0, 0, x)
  {
    hide Furthest, Dist, Match;
    FurthestStart(a, b, x);
  }

  lemma EndNext(a: string, b: string, v: seq<int>, mid: nat, D: nat, k: int, back: bool, x: int)
    requires D > 0 && Ready(a, b, v, mid, D, back) && InReach(D, k) && SameParity(D, k)
    requires var n := if back then -k else k;
      Slid(a, b, n, StartOf(v, mid, D, k, back), x) && !Match(a, b, x, x - n)
    ensures Furthest(a, b, D, if back then -k else k, x)
  {
    hide Furthest, Dist, Match, MatchRun, Ready, At, Slid;
    ReadyNeighbours(a, b, v, mid, D, k, back);
    if back {
      FurthestStep(a, b, D - 1, -k, At(v, mid, k + 1), At(v, mid, k - 1), x);
    } else {
      FurthestStep(a, b, D - 1, k, At(v, mid, k - 1), At(v, mid, k + 1), x);
    }
  }

  lemma NoneForwardStore(a: string, b: string, v1: seq<int>, v2: seq<int>, mid: nat, D: nat, k: int, x: int)
    requires NoneForward(a, b, v1, v2, mid, D, k) && InReach(D, k) && SameParity(D, k)
    requires InReach(D - 1, k - (|a| - |b|)) ==> x + At(v2, mid, k - (|a| - |b|)) < |a|
    ensures NoneForward(a, b, v1[mid + k := x], v2, mid, D, k + 2)
  {
  }

  lemma NoneReverseStore(a: string, b: string, v1: seq<int>, v2: seq<int>, mid: nat, D: nat, k: int, x: int)
    requires NoneReverse(a, b, v1, v2, mid, D, k) && InReach(D, k) && SameParity(D, k)
    requires InReach(D, k + (|a| - |b|)) ==> x + At(v1, mid, k + (|a| - |b|)) < |a|
    ensures NoneReverse(a, b, v1, v2[mid + k := x], mid, D, k + 2)
  {
  }

  // The overlap test of the forward pass: entry k against the reverse row.
  lemma ForwardMeets(a: string, b: string, v2: seq<int>, mid: nat, D: nat, k: int, x: int)
    requires D > 0 && Ready(Rev(a), Rev(b), v2, mid, D, true)
    requires Furthest(a, b, D, k, x) && SameParity(D, k)
    requires Odd(a, b) == 1 && InReach(D - 1, k - (|a| - |b|))
    requires x + At(v2, mid, k - (|a| - |b|)) >= |a|
    ensures Meet(a, b, D, D - 1, k, x, At(v2, mid, k - (|a| - |b|)))
  {
  }

  lemma ReverseMeets(a: string, b: string, v1: seq<int>, mid: nat, D: nat, k: int, x: int)
    requires Row(a, b, v1, mid, D, D + 2, false)
    requires Furthest(Rev(a), Rev(b), D, -k, x) && SameParity(D, k)
    requires Odd(a, b) == 0 && InReach(D, k + (|a| - |b|))
    requires x + At(v1, mid, k + (|a| - |b|)) >= |a|
    ensures Meet(Rev(a), Rev(b), D, D, -k, x, At(v1, mid, k + (|a| - |b|)))
  {
    hide Furthest;
    var j := k + (|a| - |b|);
    assert SameParity(D, j);
    assert Furthest(a, b, D, j, At(v1, mid, j));
    MeetRev(a, b, D, -k, x, At(v1, mid, j));
  }

  // With one edit in all the forward pass finds it right after the first snake.
  lemma AdjoinsForward(a: string, b: string, v: seq<int>, mid: nat, k: int, x: int)
    requires Ready(a, b, v, mid, 1, false) && InReach(1, k) && SameParity(1, k)
    requires k == |a| - |b| && x == |a|
    ensures var s := StartOf(v, mid, 1, k, false); Adjoins(a, b, 1, s, s - k, x, x - k)
  {
  }

  // A furthest path with no edits left to go has arrived.
  lemma Arrived(a: string, b: string, d: nat, k: int, x: int)
    requires Furthest(a, b, d, k, x) && x <= |a| && x - k <= |b| && Rest(a, b, x, x - k) == 0
    ensures x == |a| && x - k == |b|
  {
  }

  // With no edits at all the reverse pass starts at the far corner.
  lemma AdjoinsReverse(a: string, b: string, v2: seq<int>, mid: nat, k: int, x: int)
    requires Ready(Rev(a), Rev(b), v2, mid, 0, true) && k == 0
    ensures var s := StartOf(v2, mid, 0, k, true);
      Adjoins(a, b, 0, |a| - x, |b| - (x + k), |a| - s, |b| - (s + k))
  {
  }

  // Both tables are ready for the pass for D edits, and shorter paths have been
  // ruled out.
  ghost predicate Searching(a: string, b: string, v1: seq<int>, v2: seq<int>, mid: nat, D: nat) {
    && Ready(a, b, v1, mid, D, false)
    && Ready(Rev(a), Rev(b), v2, mid, D, true)
    && 2 * D - Odd(a, b) <= Total(a, b)
  }

  // The forward pass for D edits has dealt with the diagonals before k.
  ghost predicate Forward(a: string, b: string, v1: seq<int>, v2: seq<int>, mid: nat, D: nat, k: int) {
    && Searching(a, b, v1, v2, mid, D)
    && 0 <= D + k && k <= D + 2 && SameParity(D, k)
    && Row(a, b, v1, mid, D, k, false)
    && (Odd(a, b) == 1 ==> NoneForward(a, b, v1, v2, mid, D, k))
  }

  lemma ForwardBegin(a: string, b: string, v1: seq<int>, v2: seq<int>, mid: nat, D: nat, k: int)
    requires Searching(a, b, v1, v2, mid, D) && D + k == 0
    ensures Forward(a, b, v1, v2, mid, D, k)
  {
  }

  // The test for an overlap on diagonal k.
  predicate ForwardOverlap(a: string, b: string, v2: seq<int>, mid: nat, D: nat, k: int, x: int) {
    Odd(a, b) == 1 && InReach(D - 1, k - (|a| - |b|)) && x + At(v2, mid, k - (|a| - |b|)) >= |a|
  }

  lemma ForwardReady(a: string, b: string, v1: seq<int>, v2: seq<int>, mid: nat, D: nat, k: int)
    requires Forward(a, b, v1, v2, mid, D, k) && k <= D
    ensures InReach(D, k) && SameParity(D, k) && Ready(a, b, v1, mid, D, false)
  {
  }

  lemma ForwardNext(a: string, b: string, v1: seq<int>, v2: seq<int>, mid: nat, D: nat, k: int, x: int)
    requires Forward(a, b, v1, v2, mid, D, k) && k <= D && Furthest(a, b, D, k, x)
    requires !ForwardOverlap(a, b, v2, mid, D, k, x)
    ensures Forward(a, b, v1[mid + k := x], v2, mid, D, k + 2)
  {
    hide Furthest, Row, NoneForward, Ready;
    RowStore(a, b, v1, mid, D, k, x, false);
    ReadyStore(a, b, v1, mid, D, k, x, false);
    if Odd(a, b) == 1 {
      NoneForwardStore(a, b, v1, v2, mid, D, k, x);
    }
  }

  lemma ForwardFound(a: string, b: string, v1: seq<int>, v2: seq<int>, mid: nat, D: nat, k: int, s: int, x: int)
    requires Forward(a, b, v1, v2, mid, D, k) && k <= D && Furthest(a, b, D, k, x)
    requires ForwardOverlap(a, b, v2, mid, D, k, x)
    requires s == StartOf(v1, mid, D, k, false) && Slid(a, b, k, s, x)
    ensures Optimal(a, b, 2 * D - 1, s, s - k, x, x - k)
  {
    hide Furthest, Row, NoneForward, Ready, Adjoins, StartOf, Slid, Dist, Rest;
    ForwardMeets(a, b, v2, mid, D, k, x);
    MiddleForward(a, b, D, k, s, x, At(v2, mid, k - (|a| - |b|)));
    if D == 1 {
      Arrived(a, b, 1, k, x);
      AdjoinsForward(a, b, v1, mid, k, x);
    } else {
      AdjoinsMany(a, b, 2 * D - 1, s, s - k, x, x - k);
    }
  }

  lemma ForwardStep(a: string, b: string, v1: seq<int>, v2: seq<int>, mid: nat, D: nat, k: int, s: int, x: int)
    requires Forward(a, b, v1, v2, mid, D, k) && k <= D && Furthest(a, b, D, k, x)
    requires s == StartOf(v1, mid, D, k, false) && Slid(a, b, k, s, x)
    ensures if ForwardOverlap(a, b, v2, mid, D, k, x) then Optimal(a, b, 2 * D - 1, s, s - k, x, x - k)
            else Forward(a, b, v1[mid + k := x], v2, mid, D, k + 2)
  {
    hide *;
    if ForwardOverlap(a, b, v2, mid, D, k, x) {
      ForwardFound(a, b, v1, v2, mid, D, k, s, x);
    } else {
      ForwardNext(a, b, v1, v2, mid, D, k, x);
    }
  }

  lemma AdjoinsMany(a: string, b: string, changes: int, ulx: int, uly: int, lrx: int, lry: int)
    requires changes > 1
    ensures Adjoins(a, b, changes, ulx, uly, lrx, lry)
  {
  }

  // After the whole forward pass.
  ghost predicate Halfdone(a: string, b: string, v1: seq<int>, v2: seq<int>, mid: nat, D: nat) {
    && Row(a, b, v1, mid, D, D + 2, false)
    && Ready(Rev(a), Rev(b), v2, mid, D, true)
    && 2 * D - Odd(a, b) <= Total(a, b)
    && (Odd(a, b) == 1 ==> 2 * D - 1 < Total(a, b))
  }

  lemma ForwardEnd(a: string, b: string, v1: seq<int>, v2: seq<int>, mid: nat, D: nat, k: int)
    requires Forward(a, b, v1, v2, mid, D, k) && k > D
    ensures Halfdone(a, b, v1, v2, mid, D)
  {
    hide Furthest;
    assert k == D + 2;
    if D > 0 && Odd(a, b) == 1 {
      ForwardExhausted(a, b, v1, v2, mid, D);
    }
  }

  // The reverse pass has dealt with the entries before k.
  ghost predicate Reverse(a: string, b: string, v1: seq<int>, v2: seq<int>, mid: nat, D: nat, k: int) {
    && Halfdone(a, b, v1, v2, mid, D)
    && 0 <= D + k && k <= D + 2 && SameParity(D, k)
    && Row(Rev(a), Rev(b), v2, mid, D, k, true)
    && (Odd(a, b) == 0 ==> NoneReverse(a, b, v1, v2, mid, D, k))
  }

  lemma ReverseBegin(a: string, b: string, v1: seq<int>, v2: seq<int>, mid: nat, D: nat, k: int)
    requires Halfdone(a, b, v1, v2, mid, D) && D + k == 0
    ensures Reverse(a, b, v1, v2, mid, D, k)
  {
  }

  predicate ReverseOverlap(a: string, b: string, v1: seq<int>, mid: nat, D: nat, k: int, x: int) {
    Odd(a, b) == 0 && InReach(D, k + (|a| - |b|)) && x + At(v1, mid, k + (|a| - |b|)) >= |a|
  }

  lemma ReverseReady(a: string, b: string, v1: seq<int>, v2: seq<int>, mid: nat, D: nat, k: int)
    requires Reverse(a, b, v1, v2, mid, D, k) && k <= D
    ensures InReach(D, k) && SameParity(D, k) && Ready(Rev(a), Rev(b), v2, mid, D, true)
  {
  }

  lemma ReverseNext(a: string, b: string, v1: seq<int>, v2: seq<int>, mid: nat, D: nat, k: int, x: int)
    requires Reverse(a, b, v1, v2, mid, D, k) && k <= D && Furthest(Rev(a), Rev(b), D, -k, x)
    requires !ReverseOverlap(a, b, v1, mid, D, k, x)
    ensures Reverse(a, b, v1, v2[mid + k := x], mid, D, k + 2)
  {
    hide Furthest, Row, NoneReverse, Ready;
    RowStore(Rev(a), Rev(b), v2, mid, D, k, x, true);
    ReadyStore(Rev(a), Rev(b), v2, mid, D, k, x, true);
    if Odd(a, b) == 0 {
      NoneReverseStore(a, b, v1, v2, mid, D, k, x);
    }
  }

  // The snake from s to x of the reverse pass, in forward coordinates.
  ghost predicate ReverseOptimal(a: string, b: string, D: nat, k: int, s: int, x: int) {
    Optimal(a, b, 2 * D, |a| - x, |b| - (x + k), |a| - s, |b| - (s + k))
  }

  lemma ReverseFound(a: string, b: string, v1: seq<int>, v2: seq<int>, mid: nat, D: nat, k: int, s: int, x: int)
    requires Reverse(a, b, v1, v2, mid, D, k) && k <= D && Furthest(Rev(a), Rev(b), D, -k, x)
    requires ReverseOverlap(a, b, v1, mid, D, k, x)
    requires s == StartOf(v2, mid, D, k, true) && Slid(Rev(a), Rev(b), -k, s, x)
    ensures ReverseOptimal(a, b, D, k, s, x)
  {
    hide Furthest, Row, NoneReverse, Ready, Middle, Slid, StartOf, Adjoins;
    ReverseMeets(a, b, v1, mid, D, k, x);
    MiddleReverse(a, b, D, -k, s, x, At(v1, mid, k + (|a| - |b|)));
    if D == 0 {
      AdjoinsReverse(a, b, v2, mid, k, x);
    } else {
      AdjoinsMany(a, b, 2 * D, |a| - x, |b| - (x + k), |a| - s, |b| - (s + k));
    }
  }

  lemma ReverseStep(a: string, b: string, v1: seq<int>, v2: seq<int>, mid: nat, D: nat, k: int, s: int, x: int)
    requires Reverse(a, b, v1, v2, mid, D, k) && k <= D && Furthest(Rev(a), Rev(b), D, -k, x)
    requires s == StartOf(v2, mid, D, k, true) && Slid(Rev(a), Rev(b), -k, s, x)
    ensures if ReverseOverlap(a, b, v1, mid, D, k, x) then ReverseOptimal(a, b, D, k, s, x)
            else Reverse(a, b, v1, v2[mid + k := x], mid, D, k + 2)
  {
    hide *;
    if ReverseOverlap(a, b, v1, mid, D, k, x) {
      ReverseFound(a, b, v1, v2, mid, D, k, s, x);
    } else {
      ReverseNext(a, b, v1, v2, mid, D, k, x);
    }
  }

  // After both passes without an overlap, on to D + 1 edits; there are never more
  // than the two lengths together.
  lemma ReverseEnd(a: string, b: string, v1: seq<int>, v2: seq<int>, mid: nat, D: nat, k: int)
    requires Reverse(a, b, v1, v2, mid, D, k) && k > D
    requires |a| + |b| <= 2 * mid && 2 * mid < |v1| && 2 * mid < |v2|
    ensures 2 * (D + 1) <= |a| + |b| + 1
    ensures Searching(a, b, v1, v2, mid, D + 1)
  {
    hide Furthest, Dist;
    assert k == D + 2;
    if Odd(a, b) == 0 {
      ReverseExhausted(a, b, v1, v2, mid, D);
    }
    TotalParity(a, b);
  }

  // changes has the parity of the two lengths' difference.
  lemma MiddleParity(a: string, b: string, changes: int, ulx: int, uly: int, lrx: int, lry: int)
    requires Optimal(a, b, changes, ulx, uly, lrx, lry)
    ensures 0 <= ulx <= lrx <= |a| && 0 <= uly <= lry <= |b|
    ensures changes % 2 == (|a| - |b|) % 2
  {
    TotalParity(a, b);
  }

  lemma SearchBegin(a: string, b: string, v1: seq<int>, v2: seq<int>, mid: nat)
    requires 1 <= mid && mid + 1 < |v1| && mid + 1 < |v2| && v1[mid + 1] == 0 && v2[mid - 1] == 0
    ensures Searching(a, b, v1, v2, mid, 0)
  {
  }

  lemma TotalParity(a: string, b: string)
    ensures Total(a, b) <= |a| + |b| && Total(a, b) % 2 == Odd(a, b)
  {
    hide Dist;
    DiagonalBound(a, b, |a|, |b|);
    Parity(a, b, |a|, |b|);
  }

  // The snakes found for a region: in order, and as many matches as can be had.
  ghost predicate Solved(s: string, t: string, a: string, b: string, A: nat, B: nat, found: seq<Snake>) {
    && Chain(s, t, found, A, B, A + |a|, B + |b|)
    && |a| + |b| - 2 * Matches(found) == Total(a, b)
    && |found| + (if Total(a, b) > 0 then 1 else 0) <= |a| + |b|
  }

  ghost predicate Parts(s: string, t: string, a: string, b: string, A: nat, B: nat) {
    && A + |a| <= |s| && a == s[A..A + |a|]
    && B + |b| <= |t| && b == t[B..B + |b|]
  }

  lemma PartsRun(s: string, t: string, a: string, b: string, A: nat, B: nat, x: nat, y: nat, k: nat)
    requires Parts(s, t, a, b, A, B) && MatchRun(a, b, x, y, k)
    ensures MatchRun(s, t, A + x, B + y, k)
  {
    RunInside(s, t, A, |a|, B, |b|, x, y, k);
  }

  // The parts of a region before and after its middle snake.
  lemma SplitParts(s: string, t: string, a: string, b: string, A: nat, B: nat, ulx: nat, uly: nat, lrx: nat, lry: nat)
    requires Parts(s, t, a, b, A, B)
    requires ulx <= lrx <= |a| && uly <= lry <= |b|
    ensures Parts(s, t, a[..ulx], b[..uly], A, B)
    ensures Parts(s, t, a[lrx..], b[lry..], A + lrx, B + lry)
  {
  }

  // Both sides of a middle snake with more than one edit have an edit of their own.
  lemma BothSides(a: string, b: string, changes: int, ulx: nat, uly: nat, lrx: nat, lry: nat)
    requires Optimal(a, b, changes, ulx, uly, lrx, lry) && changes > 1
    ensures 0 < Total(a[..ulx], b[..uly]) <= ulx + uly
    ensures 0 < Total(a[lrx..], b[lry..]) <= (|a| - lrx) + (|b| - lry)
    ensures ulx <= lrx <= |a| && uly <= lry <= |b|
  {
    hide Dist;
    TotalBefore(a, b, ulx, uly);
    TotalAfter(a, b, lrx, lry);
    DiagonalBound(a[..ulx], b[..uly], ulx, uly);
    DiagonalBound(a[lrx..], b[lry..], |a| - lrx, |b| - lry);
  }

  lemma NothingToFind(s: string, t: string, a: string, b: string, A: nat, B: nat)
    requires (|a| == 0 || |b| == 0) && |a| + |b| > 0
    ensures Solved(s, t, a, b, A, B, [])
  {
  }

  // More than one edit: solve both sides and put the snake between them.
  lemma SolvedAround(s: string, t: string, a: string, b: string, A: nat, B: nat,
                     changes: int, ulx: nat, uly: nat, lrx: nat, lry: nat,
                     before: seq<Snake>, after: seq<Snake>)
    requires Parts(s, t, a, b, A, B)
    requires Optimal(a, b, changes, ulx, uly, lrx, lry) && changes > 1
    requires Solved(s, t, a[..ulx], b[..uly], A, B, before)
    requires Solved(s, t, a[lrx..], b[lry..], A + lrx, B + lry, after)
    ensures Solved(s, t, a, b, A, B, before + [Snake(A + ulx, B + uly, lrx - ulx)] + after)
  {
    hide Dist, Chain, Matches, MatchRun, Parts, Adjoins, Total, Rest;
    var snake := Snake(A + ulx, B + uly, lrx - ulx);
    TotalBefore(a, b, ulx, uly);
    TotalAfter(a, b, lrx, lry);
    PartsRun(s, t, a, b, A, B, ulx, uly, lrx - ulx);
    ChainOne(s, t, snake, A + ulx, B + uly);
    ChainConcat(s, t, before, [snake], A, B, A + ulx, B + uly, A + lrx, B + lry);
    ChainConcat(s, t, before + [snake], after, A, B, A + lrx, B + lry, A + |a|, B + |b|);
  }

  lemma SolvedSize(s: string, t: string, a: string, b: string, A: nat, B: nat, found: seq<Snake>)
    requires Solved(s, t, a, b, A, B, found) && Total(a, b) > 0
    ensures |found| + 1 <= |a| + |b|
  {
  }

  // At most one edit: a common prefix and the snake.
  lemma SolvedDirectly(s: string, t: string, a: string, b: string, A: nat, B: nat,
                       changes: int, ulx: nat, uly: nat, lrx: nat, lry: nat, count: nat)
    requires Parts(s, t, a, b, A, B) && |a| > 0 && |b| > 0
    requires Optimal(a, b, changes, ulx, uly, lrx, lry) && changes <= 1
    requires count == if |a| > |b| then uly else ulx
    ensures Solved(s, t, a, b, A, B, [Snake(A, B, count), Snake(A + ulx, B + uly, lrx - ulx)])
  {
    hide Dist, Chain, Matches, MatchRun, Parts, Total, Rest;
    var first, second := Snake(A, B, count), Snake(A + ulx, B + uly, lrx - ulx);
    DiagonalBound(a, b, ulx, uly);
    TotalParity(a, b);
    ZeroPrefix(a, b, count);
    PartsRun(s, t, a, b, A, B, 0, 0, count);
    PartsRun(s, t, a, b, A, B, ulx, uly, lrx - ulx);
    ChainOne(s, t, first, A, B);
    ChainOne(s, t, second, A + count, B + count);
    ChainConcat(s, t, [first], [second], A, B, A + count, B + count, A + lrx, B + lry);
    assert [first] + [second] == [first, second];
  }

  lemma Regroup(s: seq<Snake>, before: seq<Snake>, middle: Snake, after: seq<Snake>)
    ensures s + before + [middle] + after == s + (before + [middle] + after)
    ensures (s + before + [middle] + after)[|s|..] == before + [middle] + after
  {
  }

  // The list of all snakes, closed by the lower right endpoint.
  lemma EndPoint(s: string, t: string, found: seq<Snake>)
    requires Solved(s, t, s, t, 0, 0, found)
    ensures var all := found + [Snake(|s|, |t|, 0)];
      && Chain(s, t, all, 0, 0, |s|, |t|)
      && |s| + |t| - 2 * Matches(all) == Total(s, t)
  {
    hide Total;
    ChainOne(s, t, Snake(|s|, |t|, 0), |s|, |t|);
    ChainConcat(s, t, found, [Snake(|s|, |t|, 0)], 0, 0, |s|, |t|, |s|, |t|);
  }

  lemma PartsWhole(s: string, t: string)
    ensures Parts(s, t, s, t, 0, 0)
  {
  }

  lemma SolvedFits(s: string, t: string, found: seq<Snake>)
    requires Solved(s, t, s, t, 0, 0, found)
    ensures |found| <= |s| + |t|
  {
  }

  lemma MatchesNone()
    ensures Matches([]) == 0
  {
  }

  // One, less the edits per character.
  ghost function Likeness(a: string, b: string): real {
    if |a| + |b| == 0 then 1.0 else 1.0 - Total(a, b) as real / (|a| + |b|) as real
  }

  ghost predicate LongestCommon(a: string, b: string, p: seq<(nat, nat)>) {
    && CommonSubsequence(a, b, p, |a|, |b|)
    && forall q :: CommonSubsequence(a, b, q, |a|, |b|) ==> |q| <= |p|
  }

  // A common subsequence is a longest one exactly when it leaves as many edits
  // as the distance: the distance is what a shortest script costs.
  lemma LongestExactly(a: string, b: string, p: seq<(nat, nat)>)
    requires CommonSubsequence(a, b, p, |a|, |b|)
    ensures LongestCommon(a, b, p) <==> |a| + |b| - 2 * |p| == Total(a, b)
  {
    hide CommonSubsequence, Dist;
    forall q | CommonSubsequence(a, b, q, |a|, |b|) ensures 2 * |q| <= |a| + |b| - Total(a, b) {
      CommonBound(a, b, q, |a|, |b|);
    }
    var best := CommonReached(a, b, |a|, |b|);
    assert CommonSubsequence(a, b, best, |a|, |b|);
  }

  lemma {:induction false} Unalike(a: string, b: string, x: nat, y: nat)
    requires forall i: nat, j: nat | i < |a| && j < |b| :: a[i] != b[j]
    ensures Dist(a, b, x, y) == x + y
    decreases x + y
  {
    if x > 0 && y > 0 {
      Unalike(a, b, x - 1, y);
      Unalike(a, b, x, y - 1);
    }
  }

  lemma TotalZero(a: string, b: string)
    ensures Total(a, b) == 0 <==> a == b
  {
    hide Dist;
    if a == b {
      SnakeDist(a, b, 0, 0, |a|);
      DiagonalBound(a, b, 0, 0);
    }
    if Total(a, b) == 0 {
      DiagonalBound(a, b, |a|, |b|);
      ZeroPrefix(a, b, |a|);
      assert a[0..|a|] == a && b[0..|b|] == b;
    }
  }

  lemma TotalFull(a: string, b: string)
    ensures Total(a, b) == |a| + |b| <==> forall i: nat, j: nat | i < |a| && j < |b| :: a[i] != b[j]
  {
    hide Dist;
    if forall i: nat, j: nat | i < |a| && j < |b| :: a[i] != b[j] {
      Unalike(a, b, |a|, |b|);
    } else {
      var i: nat, j: nat :| i < |a| && j < |b| && a[i] == b[j];
      CommonBound(a, b, [(i, j)], |a|, |b|);
    }
  }

  // 1 if the strings are identical, 0 if they are entirely unalike, and somewhere
  // in between otherwise.
  lemma LikenessRange(a: string, b: string)
    ensures 0.0 <= Likeness(a, b) <= 1.0
    ensures Likeness(a, b) == 1.0 <==> a == b
    ensures Likeness(a, b) == 0.0 <==>
      |a| + |b| > 0 && forall i: nat, j: nat | i < |a| && j < |b| :: a[i] != b[j]
  {
    hide Total;
    TotalParity(a, b);
    TotalZero(a, b);
    TotalFull(a, b);
    if |a| + |b| > 0 {
      Ratio(Total(a, b), |a| + |b|);
    }
  }

  lemma Ratio(x: nat, y: nat)
    requires x <= y && y > 0
    ensures var r := x as real / y as real;
      0.0 <= r <= 1.0 && (r == 0.0 <==> x == 0) && (r == 1.0 <==> x == y)
  {
    var p, q := x as real, y as real;
    var r := p / q;
    assert r * q == p;
    FactorSign(r, q);
    FactorSign(1.0 - r, q);
    assert (1.0 - r) * q == q - p;
  }

  lemma Share(x: int, y: nat)
    requires y > 0
    ensures (1.0 - x as real / y as real) * y as real == (y - x) as real
  {
    var p, q := x as real, y as real;
    assert p / q * q == p;
  }

  lemma ResultIs(a: string, b: string, edits: int, matches: int, r: real)
    requires |a| + |b| > 0 && edits == Total(a, b) && edits == |a| + |b| - 2 * matches
    requires r == 1.0 - edits as real / (|a| + |b|) as real
    ensures r == Likeness(a, b) && r * (|a| + |b|) as real == (2 * matches) as real
  {
    hide Total;
    Share(edits, |a| + |b|);
  }

  lemma NothingAlike(a: string, b: string)
    ensures |a| + |b| == 0 ==> Likeness(a, b) == 1.0
  {
  }

  // A product with a positive factor has the sign of the other.
  lemma FactorSign(r: real, q: real)
    requires q > 0.0
    ensures r > 0.0 ==> r * q > 0.0
    ensures r == 0.0 ==> r * q == 0.0
    ensures r < 0.0 ==> r * q < 0.0
  {
  }

  class Comparer {
    var fileA: string
    var fileB: string
    // the rows containing the last D, centred on mid
    var V1: array<int>
    var V2: array<int>
    var mid: nat
    // the snakes found so far
    var snakes: array<Snake>
    var nextsnake: nat
    // the size of the edit script
    var inserts: int
    var deletes: int
    var matches: int

    constructor ()
      ensures Valid() && fresh(V1) && fresh(V2) && fresh(snakes)
    {
      fileA, fileB := "", "";
      V1 := new int[0];
      V2 := new int[0];
      mid := 0;
      snakes := new Snake[0];
      nextsnake := 0;
      inserts, deletes, matches := 0, 0, 0;
    }

    // The tables are allocated together and only ever grow.
    ghost predicate Valid()
      reads this
    {
      V1 != V2 && V1.Length == V2.Length == snakes.Length
    }

    ghost predicate Tables()
      reads this
    {
      && 1 <= mid
      && V1 != V2
      && V1.Length >= 2 * mid + 1
      && V2.Length >= 2 * mid + 1
    }

    // a and b are the parts of the two strings being compared.
    ghost predicate Windows(a: string, b: string, A: nat, B: nat)
      reads this
    {
      Parts(fileA, fileB, a, b, A, B)
    }

    ghost predicate Region(a: string, b: string, A: nat, N: nat, B: nat, M: nat)
      reads this
    {
      Tables() && |a| == N && |b| == M && N + M <= 2 * mid && Windows(a, b, A, B)
    }

    // Follow the snake down diagonal k from x.
    method SlideForward(ghost a: string, ghost b: string, A: nat, N: nat, B: nat, M: nat, k: int, oldx: int)
      returns (x: int)
      requires Region(a, b, A, N, B, M) && 0 <= oldx && k <= oldx
      ensures Slid(a, b, k, oldx, x)
      ensures !Match(a, b, x, x - k)
    {
      hide Slid;
      x := oldx;
      SlideNone(a, b, k, x);
      var y := x - k;
      while x < N && y < M && fileA[A + x] == fileB[B + y]
        invariant oldx <= x && y == x - k && Slid(a, b, k, oldx, x)
        decreases N - x
      {
        SlideOne(a, b, k, oldx, x);
        x := x + 1;
        y := y + 1;
      }
    }

    // Follow the snake up the diagonal with x + k == y, counted from the far end.
    method SlideReverse(ghost a: string, ghost b: string, A: nat, N: nat, B: nat, M: nat, k: int, oldx: int)
      returns (x: int)
      requires Region(a, b, A, N, B, M) && 0 <= oldx && -k <= oldx
      ensures Slid(Rev(a), Rev(b), -k, oldx, x)
      ensures !Match(Rev(a), Rev(b), x, x + k)
    {
      ghost var ra, rb := Rev(a), Rev(b);
      hide Slid;
      x := oldx;
      SlideNone(ra, rb, -k, x);
      var y := x + k;
      while x < N && y < M && fileA[A + N - x - 1] == fileB[B + M - y - 1]
        invariant oldx <= x && y == x + k && Slid(ra, rb, -k, oldx, x)
        decreases N - x
      {
        SlideOne(ra, rb, -k, oldx, x);
        x := x + 1;
        y := y + 1;
      }
    }

    method StartForward(D: nat, k: int) returns (oldx: int)
      requires Tables() && D <= mid && InReach(D, k)
      ensures oldx == StartOf(V1[..], mid, D, k, false)
    {
      if D + k == 0 || (k != D && V1[mid + k - 1] < V1[mid + k + 1]) {
        oldx := V1[mid + k + 1];
      } else {
        oldx := V1[mid + k - 1] + 1;
      }
    }

    method StartReverse(D: nat, k: int) returns (oldx: int)
      requires Tables() && D <= mid && InReach(D, k)
      ensures oldx == StartOf(V2[..], mid, D, k, true)
    {
      if k == D || (D + k != 0 && V2[mid + k + 1] < V2[mid + k - 1]) {
        oldx := V2[mid + k - 1];
      } else {
        oldx := V2[mid + k + 1] + 1;
      }
    }

    // See if the path overlaps the furthest reverse path.
    method MeetsReverse(ghost a: string, ghost b: string, N: nat, M: nat, D: nat, k: int, x: int) returns (found: bool)
      requires Tables() && D <= mid && InReach(D, k) && N == |a| && M == |b|
      ensures found == ForwardOverlap(a, b, V2[..], mid, D, k, x)
    {
      var delta: int := N - M;
      found := false;
      if delta % 2 != 0 && k >= delta - (D - 1) && k <= delta + (D - 1) {
        found := x + V2[mid + k - delta] >= N;
      }
    }

    // Find the end of the furthest forward path of D edits on diagonal k.
    method FurthestForward(ghost a: string, ghost b: string, A: nat, N: nat, B: nat, M: nat, D: nat, k: int)
      returns (oldx: int, x: int)
      requires Region(a, b, A, N, B, M) && D <= mid && InReach(D, k) && SameParity(D, k)
      requires Ready(a, b, V1[..], mid, D, false)
      ensures oldx == StartOf(V1[..], mid, D, k, false)
      ensures Slid(a, b, k, oldx, x) && Furthest(a, b, D, k, x)
    {
      hide Furthest, Ready, Windows, Slid, StartOf, Match, At, Dist;
      oldx := StartForward(D, k);
      BeginDiagonal(a, b, V1[..], mid, D, k, false);
      x := SlideForward(a, b, A, N, B, M, k, oldx);
      EndDiagonal(a, b, V1[..], mid, D, k, false, x);
    }

    // The same from the far end.
    method FurthestReverse(ghost a: string, ghost b: string, A: nat, N: nat, B: nat, M: nat, D: nat, k: int)
      returns (oldx: int, x: int)
      requires Region(a, b, A, N, B, M) && D <= mid && InReach(D, k) && SameParity(D, k)
      requires Ready(Rev(a), Rev(b), V2[..], mid, D, true)
      ensures oldx == StartOf(V2[..], mid, D, k, true)
      ensures Slid(Rev(a), Rev(b), -k, oldx, x) && Furthest(Rev(a), Rev(b), D, -k, x)
    {
      hide Furthest, Ready, Windows, Slid, StartOf, Match, At, Dist, Rev;
      oldx := StartReverse(D, k);
      BeginDiagonal(Rev(a), Rev(b), V2[..], mid, D, k, true);
      x := SlideReverse(a, b, A, N, B, M, k, oldx);
      EndDiagonal(Rev(a), Rev(b), V2[..], mid, D, k, true, x);
    }

    // Extend the furthest forward path on diagonal k by its last edit and snake,
    // and see if it overlaps the furthest reverse path.
    method ForwardDiagonal(ghost a: string, ghost b: string, A: nat, N: nat, B: nat, M: nat, D: nat, k: int)
      returns (found: bool, oldx: int, x: int)
      requires Region(a, b, A, N, B, M) && D <= mid && k <= D
      requires Forward(a, b, V1[..], V2[..], mid, D, k)
      modifies V1
      ensures found ==> Optimal(a, b, 2 * D - 1, oldx, oldx - k, x, x - k)
      ensures !found ==> Forward(a, b, V1[..], V2[..], mid, D, k + 2)
    {
      hide Windows, Optimal, Forward, ForwardOverlap;
      oldx, x := NextForward(a, b, A, N, B, M, D, k);
      ghost var V := V1[..];
      V1[mid + k] := x;
      assert V1[..] == V[mid + k := x];
      found := MeetsReverse(a, b, N, M, D, k, x);
    }

    // What the end of that path means, once it is stored.
    method NextForward(ghost a: string, ghost b: string, A: nat, N: nat, B: nat, M: nat, D: nat, k: int)
      returns (oldx: int, x: int)
      requires Region(a, b, A, N, B, M) && D <= mid && k <= D
      requires Forward(a, b, V1[..], V2[..], mid, D, k)
      ensures InReach(D, k)
      ensures if ForwardOverlap(a, b, V2[..], mid, D, k, x) then Optimal(a, b, 2 * D - 1, oldx, oldx - k, x, x - k)
        else Forward(a, b, V1[..][mid + k := x], V2[..], mid, D, k + 2)
    {
      hide Furthest, Ready, Windows, Optimal, Slid, StartOf, Total, Match, Forward, At, ForwardOverlap, Dist;
      ForwardReady(a, b, V1[..], V2[..], mid, D, k);
      oldx, x := FurthestForward(a, b, A, N, B, M, D, k);
      ForwardStep(a, b, V1[..], V2[..], mid, D, k, oldx, x);
    }

    // From upper left to lower right: every diagonal within D.
    method ForwardPass(ghost a: string, ghost b: string, A: nat, N: nat, B: nat, M: nat, D: nat)
      returns (found: bool, ulx: int, uly: int, lrx: int, lry: int)
      requires Region(a, b, A, N, B, M) && D <= mid
      requires Searching(a, b, V1[..], V2[..], mid, D)
      modifies V1
      ensures found ==>
        Optimal(a, b, 2 * D - 1, ulx, uly, lrx, lry)
      ensures !found ==> Halfdone(a, b, V1[..], V2[..], mid, D)
    {
      hide Windows, Ready, Row, NoneForward, Optimal, Total, Halfdone, Searching, Odd, Forward;
      var k: int := -(D as int);
      ForwardBegin(a, b, V1[..], V2[..], mid, D, k);
      while k <= D
        invariant Forward(a, b, V1[..], V2[..], mid, D, k)
        decreases D - k
      {
        var oldx, x;
        found, oldx, x := ForwardDiagonal(a, b, A, N, B, M, D, k);
        if found {
          return true, oldx, oldx - k, x, x - k;
        }
        k := k + 2;
      }
      ForwardEnd(a, b, V1[..], V2[..], mid, D, k);
      found, ulx, uly, lrx, lry := false, 0, 0, 0, 0;
    }

    // See if the path overlaps the furthest forward path.
    method MeetsForward(ghost a: string, ghost b: string, N: nat, M: nat, D: nat, k: int, x: int) returns (found: bool)
      requires Tables() && D <= mid && InReach(D, k) && N == |a| && M == |b|
      ensures found == ReverseOverlap(a, b, V1[..], mid, D, k, x)
    {
      var delta: int := N - M;
      found := false;
      if delta % 2 == 0 && k <= D - delta && k >= -(D as int) - delta {
        found := x + V1[mid + k + delta] >= N;
      }
    }

    // The same from the far end, against the furthest forward path.
    method ReverseDiagonal(ghost a: string, ghost b: string, A: nat, N: nat, B: nat, M: nat, D: nat, k: int)
      returns (found: bool, oldx: int, x: int)
      requires Region(a, b, A, N, B, M) && D <= mid && k <= D
      requires Reverse(a, b, V1[..], V2[..], mid, D, k)
      modifies V2
      ensures found ==> ReverseOptimal(a, b, D, k, oldx, x)
      ensures !found ==> Reverse(a, b, V1[..], V2[..], mid, D, k + 2)
    {
      hide Windows, ReverseOptimal, Reverse, ReverseOverlap;
      oldx, x := NextReverse(a, b, A, N, B, M, D, k);
      ghost var V := V2[..];
      V2[mid + k] := x;
      assert V2[..] == V[mid + k := x];
      found := MeetsForward(a, b, N, M, D, k, x);
    }

    method NextReverse(ghost a: string, ghost b: string, A: nat, N: nat, B: nat, M: nat, D: nat, k: int)
      returns (oldx: int, x: int)
      requires Region(a, b, A, N, B, M) && D <= mid && k <= D
      requires Reverse(a, b, V1[..], V2[..], mid, D, k)
      ensures InReach(D, k)
      ensures if ReverseOverlap(a, b, V1[..], mid, D, k, x) then ReverseOptimal(a, b, D, k, oldx, x)
        else Reverse(a, b, V1[..], V2[..][mid + k := x], mid, D, k + 2)
    {
      hide Furthest, Ready, Windows, ReverseOptimal, Slid, StartOf, Total, Match, Reverse, At, ReverseOverlap, Dist,
        Rev;
      ReverseReady(a, b, V1[..], V2[..], mid, D, k);
      oldx, x := FurthestReverse(a, b, A, N, B, M, D, k);
      ReverseStep(a, b, V1[..], V2[..], mid, D, k, oldx, x);
    }

    // And from lower right to upper left.
    method ReversePass(ghost a: string, ghost b: string, A: nat, N: nat, B: nat, M: nat, D: nat)
      returns (found: bool, ulx: int, uly: int, lrx: int, lry: int)
      requires Region(a, b, A, N, B, M) && D <= mid
      requires Halfdone(a, b, V1[..], V2[..], mid, D)
      modifies V2
      ensures found ==> Optimal(a, b, 2 * D, ulx, uly, lrx, lry)
      ensures !found ==>
        && 2 * (D + 1) <= N + M + 1
        && Searching(a, b, V1[..], V2[..], mid, D + 1)
    {
      hide Windows, Ready, Row, NoneReverse, Optimal, Total, Halfdone, Searching, Odd, Reverse;
      found, ulx, uly, lrx, lry := false, 0, 0, 0, 0;
      var k: int := -(D as int);
      ReverseBegin(a, b, V1[..], V2[..], mid, D, k);
      while k <= D
        invariant Reverse(a, b, V1[..], V2[..], mid, D, k)
        decreases D + 2 - k
      {
        var oldx, x;
        found, oldx, x := ReverseDiagonal(a, b, A, N, B, M, D, k);
        if found {
          ulx, uly, lrx := N - x, M - (x + k), N - oldx;
          lry := lrx + uly - ulx;
          return;
        }
        k := k + 2;
      }
      ReverseEnd(a, b, V1[..], V2[..], mid, D, k);
      found := false;
    }

    // midsnake(): a snake in the middle of an optimal path.  The search always
    // succeeds.
    method MidSnake(ghost a: string, ghost b: string, A: nat, N: nat, B: nat, M: nat)
      returns (changes: int, ulx: int, uly: int, lrx: int, lry: int)
      requires Region(a, b, A, N, B, M)
      modifies V1, V2
      ensures Optimal(a, b, changes, ulx, uly, lrx, lry)
      ensures 0 <= ulx <= lrx <= N && 0 <= uly <= lry <= M
    {
      hide Optimal, Halfdone, Searching, Total;
      V1[mid + 1] := 0;
      V2[mid - 1] := 0;
      SearchBegin(a, b, V1[..], V2[..], mid);
      var odd := (N - M) % 2;
      changes := -odd - 2;
      var D: nat := 0;
      while D <= (M + N + 1) / 2
        invariant 2 * D <= N + M + 1 && changes == 2 * (D - 1) - odd
        invariant Searching(a, b, V1[..], V2[..], mid, D)
        decreases N + M + 1 - D
      {
        changes := changes + 2;
        var found;
        found, ulx, uly, lrx, lry := ForwardPass(a, b, A, N, B, M, D);
        if found {
          MiddleParity(a, b, 2 * D - 1, ulx, uly, lrx, lry);
          return;
        }
        found, ulx, uly, lrx, lry := ReversePass(a, b, A, N, B, M, D);
        if found {
          MiddleParity(a, b, 2 * D, ulx, uly, lrx, lry);
          return;
        }
        D := D + 1;
      }
      assert false;
    }

    method Emit(snake: Snake)
      requires nextsnake < snakes.Length
      modifies this`nextsnake, snakes
      ensures nextsnake == old(nextsnake) + 1
      ensures snakes[..nextsnake] == old(snakes[..nextsnake]) + [snake]
    {
      snakes[nextsnake] := snake;
      nextsnake := nextsnake + 1;
    }

    // findsnake(): append the snakes of an optimal path through the region.  The
    // table has room for all of them.
    method FindSnake(ghost a: string, ghost b: string, A: nat, N: nat, B: nat, M: nat)
      requires Region(a, b, A, N, B, M) && N > 0 && M > 0
      requires nextsnake + N + M <= snakes.Length
      modifies this`nextsnake, V1, V2, snakes
      ensures old(nextsnake) <= nextsnake <= snakes.Length
      ensures snakes[..old(nextsnake)] == old(snakes[..nextsnake])
      ensures Solved(fileA, fileB, a, b, A, B, snakes[old(nextsnake)..nextsnake])
      decreases N + M, 2
    {
      hide Solved, Total, Optimal, MatchRun;
      var D, ulx, uly, lrx, lry := MidSnake(a, b, A, N, B, M);
      if D > 1 {
        Around(a, b, A, N, B, M, D, ulx, uly, lrx, lry);
      } else {
        ghost var n := nextsnake;
        var count := if N > M then uly else ulx;
        SolvedDirectly(fileA, fileB, a, b, A, B, D, ulx, uly, lrx, lry, count);
        Emit(Snake(A, B, count));
        Emit(Snake(A + ulx, B + uly, lrx - ulx));
        assert snakes[n..nextsnake] == [Snake(A, B, count), Snake(A + ulx, B + uly, lrx - ulx)];
      }
    }

    // The snakes of one side of a region, as a list of their own.
    method FindSide(ghost a: string, ghost b: string, A: nat, N: nat, B: nat, M: nat) returns (ghost found: seq<Snake>)
      requires Region(a, b, A, N, B, M) && N + M > 0
      requires nextsnake + N + M <= snakes.Length
      modifies this`nextsnake, V1, V2, snakes
      ensures old(nextsnake) <= nextsnake <= snakes.Length
      ensures snakes[..nextsnake] == old(snakes[..nextsnake]) + found
      ensures Solved(fileA, fileB, a, b, A, B, found)
      decreases N + M, 4
    {
      hide Total, Solved, Region;
      ghost var n := nextsnake;
      FindPart(a, b, A, N, B, M);
      found := snakes[n..nextsnake];
      assert snakes[..nextsnake] == snakes[..n] + found;
    }

    // A part without characters on one side has no snakes.
    method FindPart(ghost a: string, ghost b: string, A: nat, N: nat, B: nat, M: nat)
      requires Region(a, b, A, N, B, M) && N + M > 0
      requires nextsnake + N + M <= snakes.Length
      modifies this`nextsnake, V1, V2, snakes
      ensures old(nextsnake) <= nextsnake <= snakes.Length
      ensures snakes[..old(nextsnake)] == old(snakes[..nextsnake])
      ensures Solved(fileA, fileB, a, b, A, B, snakes[old(nextsnake)..nextsnake])
      decreases N + M, 3
    {
      hide Solved, Total, Parts;
      if N > 0 && M > 0 {
        FindSnake(a, b, A, N, B, M);
      } else {
        NothingToFind(fileA, fileB, a, b, A, B);
        assert snakes[nextsnake..nextsnake] == [];
      }
    }

    // More than one change is needed: deal with each part.
    method Around(ghost a: string, ghost b: string, A: nat, N: nat, B: nat, M: nat,
                  ghost D: int, ulx: nat, uly: nat, lrx: nat, lry: nat)
      requires Region(a, b, A, N, B, M)
      requires D > 1 && Optimal(a, b, D, ulx, uly, lrx, lry)
      requires ulx <= lrx <= N && uly <= lry <= M
      requires nextsnake + N + M <= snakes.Length
      modifies this`nextsnake, V1, V2, snakes
      ensures old(nextsnake) <= nextsnake <= snakes.Length
      ensures snakes[..old(nextsnake)] == old(snakes[..nextsnake])
      ensures Solved(fileA, fileB, a, b, A, B, snakes[old(nextsnake)..nextsnake])
      decreases N + M, 1
    {
      hide Total, Optimal, MatchRun, Parts, Solved;
      ghost var n, S := nextsnake, snakes[..nextsnake];
      ghost var middle := Snake(A + ulx, B + uly, lrx - ulx);
      BothSides(a, b, D, ulx, uly, lrx, lry);
      SplitParts(fileA, fileB, a, b, A, B, ulx, uly, lrx, lry);
      ghost var before := FindSide(a[..ulx], b[..uly], A, ulx, B, uly);
      SolvedSize(fileA, fileB, a[..ulx], b[..uly], A, B, before);
      Emit(Snake(A + ulx, B + uly, lrx - ulx));
      ghost var after := FindSide(a[lrx..], b[lry..], A + lrx, N - lrx, B + lry, M - lry);
      Regroup(S, before, middle, after);
      SolvedAround(fileA, fileB, a, b, A, B, D, ulx, uly, lrx, lry, before, after);
      assert snakes[n..nextsnake] == snakes[..nextsnake][n..];
    }

    // Scan the snakes up to the lower right endpoint, which comes last, and count
    // the inserted, deleted and matching characters.
    method Tally()
      requires 0 < nextsnake <= snakes.Length
      requires snakes[nextsnake - 1] == Snake(|fileA|, |fileB|, 0)
      requires Chain(fileA, fileB, snakes[..nextsnake], 0, 0, |fileA|, |fileB|)
      modifies this`inserts, this`deletes, this`matches
      ensures matches == Matches(snakes[..nextsnake])
      ensures deletes == |fileA| - matches && inserts == |fileB| - matches
    {
      hide MatchRun, Matches;
      MatchesNone();
      var line1, line2 := 0, 0;
      deletes, inserts, matches := 0, 0, 0;
      var sp := 0;
      while sp < nextsnake
        invariant 0 <= sp <= nextsnake
        invariant matches == Matches(snakes[..sp])
        invariant deletes == line1 - matches && inserts == line2 - matches
        invariant 0 <= line1 && 0 <= line2
        invariant Chain(fileA, fileB, snakes[sp..nextsnake], line1, line2, |fileA|, |fileB|)
        invariant sp == nextsnake ==> line1 == |fileA| && line2 == |fileB|
      {
        var snake := snakes[sp];
        MatchesSnoc(snakes[..sp], snake);
        assert snakes[..sp + 1] == snakes[..sp] + [snake];
        assert snakes[sp..nextsnake][1..] == snakes[sp + 1..nextsnake];
        deletes := deletes + (snake.line1 - line1);
        inserts := inserts + (snake.line2 - line2);
        matches := matches + snake.count;
        line1 := snake.line1 + snake.count;
        line2 := snake.line2 + snake.count;
        sp := sp + 1;
      }
    }

    // Make sure the tables are big enough for strings of up to maxlines characters.
    method Allocate(maxlines: nat)
      requires Valid() && maxlines > 0
      modifies this
      ensures Valid() && Tables() && snakes.Length >= 2 * maxlines + 1
      ensures mid == maxlines && nextsnake == 0 && fileA == old(fileA) && fileB == old(fileB)
      ensures (V1 == old(V1) || fresh(V1)) && (V2 == old(V2) || fresh(V2)) && (snakes == old(snakes) || fresh(snakes))
    {
      var tablesize := maxlines * 2 + 1;
      if tablesize > V1.Length {
        V1 := new int[tablesize];
        V2 := new int[tablesize];
        snakes := new Snake[tablesize](i => Snake(0, 0, 0));
      }
      mid := maxlines;
      nextsnake := 0;
    }

    // All the snakes, closed by the lower right endpoint.
    method Search()
      requires Valid() && Tables() && nextsnake == 0 && |fileA| + |fileB| > 0
      requires |fileA| <= mid && |fileB| <= mid && 2 * mid + 1 <= snakes.Length
      modifies this`nextsnake, V1, V2, snakes
      ensures 0 < nextsnake <= snakes.Length
      ensures snakes[nextsnake - 1] == Snake(|fileA|, |fileB|, 0)
      ensures Chain(fileA, fileB, snakes[..nextsnake], 0, 0, |fileA|, |fileB|)
      ensures |fileA| + |fileB| - 2 * Matches(snakes[..nextsnake]) == Total(fileA, fileB)
    {
      hide Solved, Chain, Matches, Total, Parts;
      PartsWhole(fileA, fileB);
      if |fileA| > 0 && |fileB| > 0 {
        FindSnake(fileA, fileB, 0, |fileA|, 0, |fileB|);
      } else {
        NothingToFind(fileA, fileB, fileA, fileB, 0, 0);
      }
      ghost var found := snakes[..nextsnake];
      assert found == snakes[0..nextsnake];
      SolvedFits(fileA, fileB, found);
      EndPoint(fileA, fileB, found);
      Emit(Snake(|fileA|, |fileB|, 0));
    }

    // The snakes of a longest common subsequence, and what it leaves.
    method CountEdits()
      requires Valid() && |fileA| + |fileB| > 0
      modifies this, V1, V2, snakes
      ensures Valid() && fileA == old(fileA) && fileB == old(fileB)
      ensures inserts + deletes == Total(fileA, fileB)
      ensures nextsnake <= snakes.Length && LongestCommon(fileA, fileB, Pairs(snakes[..nextsnake]))
      ensures matches == |Pairs(snakes[..nextsnake])|
      ensures deletes == |fileA| - matches && inserts == |fileB| - matches
    {
      hide Chain, Total, CommonSubsequence, LongestCommon, Matches, Pairs;
      Allocate(if |fileA| < |fileB| then |fileB| else |fileA|);
      Search();
      Tally();
      ChainCommon(fileA, fileB, snakes[..nextsnake]);
      LongestExactly(fileA, fileB, Pairs(snakes[..nextsnake]));
    }

    // fstrcmp(): how alike two strings are, from the length of a shortest script
    // of insertions and deletions.
    method Compare(s1: string, s2: string) returns (result: real)
      requires Valid()
      modifies this, V1, V2, snakes
      ensures Valid()
      ensures result == Likeness(s1, s2)
      // twice a longest common subsequence over the two lengths
      ensures if |s1| + |s2| == 0 then result == 1.0
        else result * (|s1| + |s2|) as real == (2 * matches) as real
      ensures |s1| + |s2| > 0 ==>
        && inserts + deletes == Total(s1, s2)
        && nextsnake <= snakes.Length
        && LongestCommon(s1, s2, Pairs(snakes[..nextsnake]))
        && matches == |Pairs(snakes[..nextsnake])|
        && deletes == |s1| - matches
        && inserts == |s2| - matches
    {
      hide Chain, Total, CommonSubsequence, LongestCommon, Matches, Pairs, Likeness;
      NothingAlike(s1, s2);
      fileA, fileB := s1, s2;
      if |s1| == 0 && |s2| == 0 {
        return 1.0;
      }
      CountEdits();
      result := 1.0 - (inserts + deletes) as real / (|s1| + |s2|) as real;
      ResultIs(s1, s2, inserts + deletes, matches, result);
    }
  }
}
