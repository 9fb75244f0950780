/**
 The prefix code of a Huffman tree: which bit string leads from the root to which
 symbol.
 */
module HuffmanCode {
  import opened HuffmanShape

  // The node a bit string leads to from the root: a 0 goes to child son[c], a 1
  // to son[c] + 1.  A string that runs on past a leaf leads nowhere.
  ghost function Walk(son: seq<nat>, bits: seq<nat>): (n: nat)
    requires |son| == TSIZE
    ensures n <= TSIZE
  {
    if bits == [] then ROOT
    else
      var m := Walk(son, bits[..|bits| - 1]);
      if m < TSIZE && son[m] + bits[|bits| - 1] < TSIZE then son[m] + bits[|bits| - 1] else TSIZE
  }

  // The bit string leads to the leaf of symbol s.
  ghost predicate Spells(son: seq<nat>, bits: seq<nat>, s: nat)
    requires |son| == TSIZE
  {
    var n := Walk(son, bits);
    n < TSIZE && son[n] == TSIZE + s
  }

  // One more bit leads from an internal node to one of its children, below it.
  lemma WalkNext(son: seq<nat>, parent: seq<nat>, bits: seq<nat>, b: nat)
    requires Shape(son, parent) && b < 2
    requires Walk(son, bits) < TSIZE && son[Walk(son, bits)] < TSIZE
    ensures Walk(son, bits + [b]) == son[Walk(son, bits)] + b < Walk(son, bits)
  {
    assert (bits + [b])[..|bits|] == bits;
    assert NodeOk(son, parent, Walk(son, bits));
  }

  lemma SpelledSymbol(son: seq<nat>, parent: seq<nat>, bits: seq<nat>)
    requires Shape(son, parent) && Walk(son, bits) < TSIZE && son[Walk(son, bits)] >= TSIZE
    ensures son[Walk(son, bits)] < TSIZE + N_CHAR
  {
    assert NodeOk(son, parent, Walk(son, bits));
  }

  // The bit string that leads to node n, read off parent[].
  ghost function PathTo(son: seq<nat>, parent: seq<nat>, n: nat): (bits: seq<nat>)
    requires Shape(son, parent) && n < TSIZE
    decreases TSIZE - n
    ensures forall k: nat | k < |bits| :: bits[k] < 2
  {
    if n == ROOT then []
    else
      assert ChildOk(son, parent, n);
      PathTo(son, parent, parent[n]) + [n - son[parent[n]]]
  }

  // The codeword of symbol s.
  ghost function Codeword(son: seq<nat>, parent: seq<nat>, s: nat): (bits: seq<nat>)
    requires Shape(son, parent) && s < N_CHAR
  {
    assert LeafOk(son, parent, s);
    PathTo(son, parent, parent[TSIZE + s])
  }

  lemma {:induction false} WalkPath(son: seq<nat>, parent: seq<nat>, n: nat)
    requires Shape(son, parent) && n < TSIZE
    ensures Walk(son, PathTo(son, parent, n)) == n
    decreases TSIZE - n
  {
    if n < ROOT {
      assert ChildOk(son, parent, n);
      var up, b := PathTo(son, parent, parent[n]), n - son[parent[n]];
      WalkPath(son, parent, parent[n]);
      assert (up + [b])[..|up|] == up;
    }
  }

  lemma ChildOfWalk(son: seq<nat>, parent: seq<nat>, n: nat, b: nat)
    requires Shape(son, parent) && n < TSIZE && b < 2 && son[n] + b < TSIZE
    ensures son[n] + b < ROOT && parent[son[n] + b] == n
    ensures PathTo(son, parent, son[n] + b) == PathTo(son, parent, n) + [b]
  {
    assert NodeOk(son, parent, n);
  }

  lemma {:induction false} PathIsOnly(son: seq<nat>, parent: seq<nat>, bits: seq<nat>)
    requires Shape(son, parent) && Walk(son, bits) < TSIZE
    requires forall k: nat | k < |bits| :: bits[k] < 2
    ensures bits == PathTo(son, parent, Walk(son, bits))
  {
    if bits != [] {
      var front, b := bits[..|bits| - 1], bits[|bits| - 1];
      assert bits == front + [b];
      PathIsOnly(son, parent, front);
      ChildOfWalk(son, parent, Walk(son, front), b);
    }
  }

  // For each symbol exactly one bit string leads to it.
  lemma CodewordUnique(son: seq<nat>, parent: seq<nat>, bits: seq<nat>, s: nat)
    requires Shape(son, parent) && s < N_CHAR
    requires forall k: nat | k < |bits| :: bits[k] < 2
    ensures Spells(son, bits, s) <==> bits == Codeword(son, parent, s)
  {
    assert LeafOk(son, parent, s);
    WalkPath(son, parent, parent[TSIZE + s]);
    var n := Walk(son, bits);
    if n < TSIZE && son[n] == TSIZE + s {
      assert NodeOk(son, parent, n);
      PathIsOnly(son, parent, bits);
    }
  }

  // A proper prefix of a path that is still in the tree ends at an internal node.
  lemma {:induction false} PrefixIsInternal(son: seq<nat>, bits: seq<nat>, k: nat)
    requires |son| == TSIZE && Walk(son, bits) < TSIZE && k < |bits|
    ensures Walk(son, bits[..k]) < TSIZE && son[Walk(son, bits[..k])] < TSIZE
  {
    var front := bits[..|bits| - 1];
    if k < |bits| - 1 {
      PrefixIsInternal(son, front, k);
      assert front[..k] == bits[..k];
    }
  }

  // No codeword is a prefix of another: decoding never has a choice of where to stop.
  lemma PrefixFree(son: seq<nat>, parent: seq<nat>, s: nat, t: nat)
    requires Shape(son, parent) && s < N_CHAR && t < N_CHAR
    requires Codeword(son, parent, s) <= Codeword(son, parent, t)
    ensures s == t
  {
    var a, b := Codeword(son, parent, s), Codeword(son, parent, t);
    assert LeafOk(son, parent, s) && LeafOk(son, parent, t);
    WalkPath(son, parent, parent[TSIZE + s]);
    WalkPath(son, parent, parent[TSIZE + t]);
    assert b[..|a|] == a;
    if |a| < |b| {
      PrefixIsInternal(son, b, |a|);
    } else {
      assert a == b;
    }
  }

  // The codeword is no longer than the tree is high.
  lemma {:induction false} PathLength(son: seq<nat>, parent: seq<nat>, n: nat)
    requires Shape(son, parent) && n < TSIZE
    ensures |PathTo(son, parent, n)| <= ROOT - n
    decreases TSIZE - n
  {
    if n < ROOT {
      assert ChildOk(son, parent, n);
      PathLength(son, parent, parent[n]);
    }
  }
}
