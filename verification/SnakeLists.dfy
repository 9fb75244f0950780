/**
 Lists of snakes: what the comparison leaves behind, and the common subsequence
 they stand for.
 */
module SnakeLists {
  import opened EditDistance

  // count characters match from line1 in one string and line2 in the other.
  datatype Snake = Snake(line1: nat, line2: nat, count: nat)

  function Matches(s: seq<Snake>): nat {
    if s == [] then 0 else s[0].count + Matches(s[1..])
  }

  // The snakes follow one another from (x, y) to no further than (u, v), and all
  // their characters match.
  ghost predicate Chain(a: string, b: string, s: seq<Snake>, x: nat, y: nat, u: nat, v: nat) {
    if s == [] then x <= u && y <= v
    else
      && x <= s[0].line1 && y <= s[0].line2
      && MatchRun(a, b, s[0].line1, s[0].line2, s[0].count)
      && Chain(a, b, s[1..], s[0].line1 + s[0].count, s[0].line2 + s[0].count, u, v)
  }

  lemma {:induction false} ChainConcat(a: string, b: string, s: seq<Snake>, t: seq<Snake>,
                                       x: nat, y: nat, m: nat, n: nat, u: nat, v: nat)
    requires Chain(a, b, s, x, y, m, n) && Chain(a, b, t, m, n, u, v)
    ensures Chain(a, b, s + t, x, y, u, v)
    ensures Matches(s + t) == Matches(s) + Matches(t)
  {
    if s == [] {
      assert s + t == t;
      ChainWiden(a, b, t, m, n, u, v, x, y);
    } else {
      assert (s + t)[1..] == s[1..] + t;
      ChainConcat(a, b, s[1..], t, s[0].line1 + s[0].count, s[0].line2 + s[0].count, m, n, u, v);
    }
  }

  lemma ChainWiden(a: string, b: string, s: seq<Snake>, x: nat, y: nat, u: nat, v: nat, x': nat, y': nat)
    requires Chain(a, b, s, x, y, u, v) && x' <= x && y' <= y
    ensures Chain(a, b, s, x', y', u, v)
  {
  }

  lemma ChainOne(a: string, b: string, s: Snake, x: nat, y: nat)
    requires x <= s.line1 && y <= s.line2 && MatchRun(a, b, s.line1, s.line2, s.count)
    ensures Chain(a, b, [s], x, y, s.line1 + s.count, s.line2 + s.count) && Matches([s]) == s.count
  {
  }

  lemma {:induction false} MatchesSnoc(s: seq<Snake>, t: Snake)
    ensures Matches(s + [t]) == Matches(s) + t.count
  {
    if s == [] {
      assert s + [t] == [t];
    } else {
      assert (s + [t])[1..] == s[1..] + [t];
      MatchesSnoc(s[1..], t);
    }
  }

  // ------------------------------------------------ as a common subsequence

  function Run(s: Snake): (p: seq<(nat, nat)>)
    ensures |p| == s.count
  {
    seq(s.count, i requires 0 <= i < s.count => (s.line1 + i, s.line2 + i))
  }

  function Pairs(s: seq<Snake>): (p: seq<(nat, nat)>)
    ensures |p| == Matches(s)
  {
    if s == [] then [] else Run(s[0]) + Pairs(s[1..])
  }

  // Positions of equal characters, increasing in both strings, from (x, y) on.
  ghost predicate Increasing(a: string, b: string, p: seq<(nat, nat)>, x: nat, y: nat) {
    && (forall i: nat | i < |p| ::
          x <= p[i].0 < |a| && y <= p[i].1 < |b| && a[p[i].0] == b[p[i].1])
    && (forall i: nat, j: nat | i < j < |p| :: p[i].0 < p[j].0 && p[i].1 < p[j].1)
  }

  lemma RunIncreasing(a: string, b: string, s: Snake)
    requires MatchRun(a, b, s.line1, s.line2, s.count)
    ensures Increasing(a, b, Run(s), s.line1, s.line2)
  {
  }

  lemma {:induction false} ChainIncreasing(a: string, b: string, s: seq<Snake>, x: nat, y: nat, u: nat, v: nat)
    requires Chain(a, b, s, x, y, u, v) && u <= |a| && v <= |b|
    ensures Increasing(a, b, Pairs(s), x, y)
  {
    if s != [] {
      var t, rest := s[0], Pairs(s[1..]);
      ChainIncreasing(a, b, s[1..], t.line1 + t.count, t.line2 + t.count, u, v);
      RunIncreasing(a, b, t);
      IncreasingConcat(a, b, Run(t), rest, t.line1, t.line2, t.line1 + t.count, t.line2 + t.count);
    }
  }

  lemma IncreasingConcat(a: string, b: string, p: seq<(nat, nat)>, q: seq<(nat, nat)>, x: nat, y: nat, u: nat, v: nat)
    requires Increasing(a, b, p, x, y) && Increasing(a, b, q, u, v)
    requires x <= u && y <= v && forall i: nat | i < |p| :: p[i].0 < u && p[i].1 < v
    ensures Increasing(a, b, p + q, x, y)
  {
  }

  // The snakes of a whole comparison are a common subsequence.
  lemma ChainCommon(a: string, b: string, s: seq<Snake>)
    requires Chain(a, b, s, 0, 0, |a|, |b|)
    ensures CommonSubsequence(a, b, Pairs(s), |a|, |b|)
  {
    ChainIncreasing(a, b, s, 0, 0, |a|, |b|);
  }
}
