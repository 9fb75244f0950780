/**
 The adaptive Huffman tree of the Teledisk decompressor.

 A tree of TSIZE nodes lives in three arrays.  Node ROOT is the root.  Node i is
 a leaf for symbol son[i] - TSIZE when son[i] >= TSIZE, and otherwise has the two
 children son[i] and son[i] + 1.  parent[] is the inverse of son[]; its last
 N_CHAR entries locate the leaf of each symbol.  freq[] has one extra entry, a
 sentinel that stops every upward scan.
 */
module HuffmanShape {

  const THRESHOLD := 2
  const LASIZE := 60
  const N_CHAR := 256 - THRESHOLD + LASIZE
  const TSIZE := N_CHAR * 2 - 1
  const ROOT := TSIZE - 1
  const MAX_FREQ := 0x8000
  const SENTINEL := 0xFFFF

  // son[] and freq[] have 16-bit elements: a value stored there must fit.
  predicate Fits(x: nat) {
    x < 0x1_0000
  }

  // ---------------------------------------------------------------- shape

  // Node i agrees with parent[]: its children lie strictly below it.
  ghost predicate NodeOk(son: seq<nat>, parent: seq<nat>, i: nat)
    requires i < TSIZE == |son| && |parent| == TSIZE + N_CHAR
  {
    if son[i] < TSIZE then
      son[i] + 1 < i && parent[son[i]] == i && parent[son[i] + 1] == i
    else
      son[i] < TSIZE + N_CHAR && parent[son[i]] == i
  }

  // Node v is one of the two children of its parent.
  ghost predicate ChildOk(son: seq<nat>, parent: seq<nat>, v: nat)
    requires v < ROOT && TSIZE == |son| && |parent| == TSIZE + N_CHAR
  {
    && v < parent[v] < TSIZE
    && son[parent[v]] < TSIZE
    && (v == son[parent[v]] || v == son[parent[v]] + 1)
  }

  // Symbol s has a leaf.
  ghost predicate LeafOk(son: seq<nat>, parent: seq<nat>, s: nat)
    requires s < N_CHAR && TSIZE == |son| && |parent| == TSIZE + N_CHAR
  {
    parent[TSIZE + s] < TSIZE && son[parent[TSIZE + s]] == TSIZE + s
  }

  // son[] and parent[] describe one binary tree over all TSIZE nodes in which
  // every symbol sits at exactly one leaf.
  ghost predicate Shape(son: seq<nat>, parent: seq<nat>) {
    && |son| == TSIZE
    && |parent| == TSIZE + N_CHAR
    && parent[ROOT] == 0
    && (forall i: nat | i < TSIZE :: NodeOk(son, parent, i))
    && (forall v: nat | v < ROOT :: ChildOk(son, parent, v))
    && (forall s: nat | s < N_CHAR :: LeafOk(son, parent, s))
  }

  // -------------------------------------------------------------- weights

  ghost predicate Sorted(freq: seq<nat>, n: nat)
    requires n <= |freq|
  {
    forall i, j | 0 <= i <= j < n :: freq[i] <= freq[j]
  }

  // What node i's frequency should be, given its children.
  ghost function Children(son: seq<nat>, freq: seq<nat>, i: nat): int
    requires i < |son| && TSIZE <= |freq| && son[i] + 1 < |freq|
  {
    freq[son[i]] + freq[son[i] + 1]
  }

  // Every internal node but `hole` is the sum of its children, and `hole`,
  // when internal, is one short.
  ghost predicate SumsBut(son: seq<nat>, freq: seq<nat>, hole: nat)
    requires |son| == TSIZE && |freq| == TSIZE + 1
  {
    forall i: nat | i < TSIZE && son[i] < TSIZE ::
      freq[i] + (if i == hole then 1 else 0) == Children(son, freq, i)
  }

  // The total of w over the leaves among the first n nodes.
  ghost function LeafTotal(son: seq<nat>, w: seq<int>, n: nat): (t: int)
    requires n <= |son| && n <= |w|
  {
    if n == 0 then 0
    else LeafTotal(son, w, n - 1) + (if son[n - 1] >= TSIZE then w[n - 1] else 0)
  }

  ghost function Ones(): (w: seq<int>)
    ensures |w| == TSIZE
  {
    seq(TSIZE, i => 1)
  }

  // freq[] restricted to the nodes, as plain integers.
  ghost function Weights(freq: seq<nat>): (w: seq<int>)
    requires |freq| == TSIZE + 1
    ensures |w| == TSIZE
    ensures forall i | 0 <= i < TSIZE :: w[i] == freq[i]
  {
    freq[..TSIZE]
  }

  // The sibling property and the bounds that keep 16-bit counters exact.
  ghost predicate Weighted(son: seq<nat>, freq: seq<nat>) {
    && |son| == TSIZE
    && |freq| == TSIZE + 1
    && Sorted(freq, TSIZE)
    && freq[0] >= 1
    && freq[TSIZE] == SENTINEL
    && SumsBut(son, freq, TSIZE)
    && LeafTotal(son, Weights(freq), TSIZE) == freq[ROOT] <= MAX_FREQ
    && LeafTotal(son, Ones(), TSIZE) == N_CHAR
  }

  // ------------------------------------------------- LeafTotal rearranged

  lemma {:induction false} LeafTotalUpdate(son: seq<nat>, w: seq<int>, n: nat, i: nat, s: nat, x: int)
    requires i < n <= |son| && n <= |w|
    ensures LeafTotal(son[i := s], w[i := x], n)
         == LeafTotal(son, w, n) - (if son[i] >= TSIZE then w[i] else 0) + (if s >= TSIZE then x else 0)
  {
    if i == n - 1 {
      LeafTotalPrefix(son, w, son[i := s], w[i := x], n - 1);
    } else {
      LeafTotalUpdate(son, w, n - 1, i, s, x);
    }
  }

  lemma {:induction false} LeafTotalPrefix(son: seq<nat>, w: seq<int>, son': seq<nat>, w': seq<int>, n: nat)
    requires n <= |son| && n <= |w| && n <= |son'| && n <= |w'|
    requires forall i | 0 <= i < n :: son[i] == son'[i] && w[i] == w'[i]
    ensures LeafTotal(son, w, n) == LeafTotal(son', w', n)
  {
    if n > 0 {
      LeafTotalPrefix(son, w, son', w', n - 1);
    }
  }

  // ------------------------------------------------------ exchanging nodes

  // parent[] after node `at` has taken over the subtree s.
  ghost function Adopt(parent: seq<nat>, s: nat, at: nat): (p: seq<nat>)
    requires s < |parent| == TSIZE + N_CHAR
    ensures |p| == |parent|
  {
    if s < TSIZE then parent[s := at][s + 1 := at] else parent[s := at]
  }

  // The exchange of c and l is a tree exchange: neither is inside the other.
  ghost predicate Swappable(son: seq<nat>, parent: seq<nat>, c: nat, l: nat) {
    && Shape(son, parent)
    && c < l < ROOT
    && (son[l] < TSIZE ==> son[l] + 1 < c)
  }

  ghost function SwapSon(son: seq<nat>, c: nat, l: nat): (s: seq<nat>)
    requires c < l < |son|
    ensures |s| == |son|
  {
    son[c := son[l]][l := son[c]]
  }

  ghost function SwapParent(son: seq<nat>, parent: seq<nat>, c: nat, l: nat): (p: seq<nat>)
    requires Swappable(son, parent, c, l)
    ensures |p| == |parent|
  {
    assert NodeOk(son, parent, c) && NodeOk(son, parent, l);
    Adopt(Adopt(parent, son[c], l), son[l], c)
  }

  lemma SwapParentAt(son: seq<nat>, parent: seq<nat>, c: nat, l: nat, v: nat)
    requires Swappable(son, parent, c, l)
    requires v < |parent|
    requires v != ROOT
    ensures SwapParent(son, parent, c, l)[v]
         == if parent[v] == c then l else if parent[v] == l then c else parent[v]
  {
    assert NodeOk(son, parent, c) && NodeOk(son, parent, l);
    if v < ROOT {
      assert ChildOk(son, parent, v);
    } else {
      assert LeafOk(son, parent, v - TSIZE);
    }
  }

  lemma SwapRoot(son: seq<nat>, parent: seq<nat>, c: nat, l: nat)
    requires Swappable(son, parent, c, l)
    ensures SwapParent(son, parent, c, l)[ROOT] == parent[ROOT]
  {
    assert NodeOk(son, parent, c) && NodeOk(son, parent, l);
  }

  lemma SwapNode(son: seq<nat>, parent: seq<nat>, c: nat, l: nat, n: nat)
    requires Swappable(son, parent, c, l) && n < TSIZE
    ensures NodeOk(SwapSon(son, c, l), SwapParent(son, parent, c, l), n)
  {
    hide SwapParent;
    var from := if n == c then l else if n == l then c else n;
    assert NodeOk(son, parent, from) && NodeOk(son, parent, c) && NodeOk(son, parent, l);
    SwapParentAt(son, parent, c, l, son[from]);
    if son[from] < TSIZE {
      SwapParentAt(son, parent, c, l, son[from] + 1);
    }
  }

  lemma SwapChild(son: seq<nat>, parent: seq<nat>, c: nat, l: nat, v: nat)
    requires Swappable(son, parent, c, l) && v < ROOT
    ensures ChildOk(SwapSon(son, c, l), SwapParent(son, parent, c, l), v)
  {
    hide SwapParent;
    assert ChildOk(son, parent, v) && NodeOk(son, parent, c) && NodeOk(son, parent, l);
    SwapParentAt(son, parent, c, l, v);
  }

  lemma SwapLeaf(son: seq<nat>, parent: seq<nat>, c: nat, l: nat, s: nat)
    requires Swappable(son, parent, c, l) && s < N_CHAR
    ensures LeafOk(SwapSon(son, c, l), SwapParent(son, parent, c, l), s)
  {
    hide SwapParent;
    assert LeafOk(son, parent, s);
    SwapParentAt(son, parent, c, l, TSIZE + s);
  }

  // Exchanging the subtrees hung at c and l keeps the tree a tree.
  lemma SwapShape(son: seq<nat>, parent: seq<nat>, c: nat, l: nat)
    requires Swappable(son, parent, c, l)
    ensures Shape(SwapSon(son, c, l), SwapParent(son, parent, c, l))
  {
    hide NodeOk, ChildOk, LeafOk, SwapSon, SwapParent;
    var son' := SwapSon(son, c, l);
    var parent' := SwapParent(son, parent, c, l);
    SwapRoot(son, parent, c, l);
    forall n: nat | n < TSIZE ensures NodeOk(son', parent', n) { SwapNode(son, parent, c, l, n); }
    forall v: nat | v < ROOT ensures ChildOk(son', parent', v) { SwapChild(son, parent, c, l, v); }
    forall s: nat | s < N_CHAR ensures LeafOk(son', parent', s) { SwapLeaf(son, parent, c, l, s); }
  }

  // --------------------------------------------------- one step of the climb

  // update()'s loop state: node c is about to be incremented, everything above
  // it still has its old frequency.
  ghost predicate Climbing(son: seq<nat>, parent: seq<nat>, freq: seq<nat>, c: nat) {
    && Shape(son, parent)
    && |freq| == TSIZE + 1
    && c < TSIZE
    && Sorted(freq, TSIZE)
    && freq[0] >= 1
    && freq[TSIZE] == SENTINEL
    && freq[ROOT] < MAX_FREQ
    && SumsBut(son, freq, c)
    && LeafTotal(son, Weights(freq), TSIZE) == freq[ROOT] + (if son[c] >= TSIZE then 0 else 1)
    && LeafTotal(son, Ones(), TSIZE) == N_CHAR
  }

  // The frequency recorded for symbol s.
  ghost function SymbolFreq(parent: seq<nat>, freq: seq<nat>, s: nat): nat
    requires s < N_CHAR && |parent| == TSIZE + N_CHAR && |freq| == TSIZE + 1
  {
    if parent[TSIZE + s] < TSIZE then freq[parent[TSIZE + s]] else 0
  }

  // A non-root node in a climb weighs less than its parent; so a node c can be
  // exchanged with any later node of the same frequency.
  lemma EqualsSwappable(son: seq<nat>, parent: seq<nat>, freq: seq<nat>, c: nat, l: nat)
    requires Climbing(son, parent, freq, c)
    requires c <= l < TSIZE && freq[l] == freq[c]
    ensures c == l || Swappable(son, parent, c, l)
  {
    if c < l {
      assert ChildOk(son, parent, c) && NodeOk(son, parent, parent[c]);
      assert freq[parent[c]] == Children(son, freq, parent[c]) > freq[c];
      if son[l] < TSIZE {
        assert NodeOk(son, parent, l);
        assert freq[l] == Children(son, freq, l) > freq[son[l] + 1];
      }
    }
  }

  lemma ClimbingFits(son: seq<nat>, parent: seq<nat>, freq: seq<nat>, c: nat)
    requires Climbing(son, parent, freq, c)
    ensures freq[c] < MAX_FREQ < freq[TSIZE]
    ensures freq[c] <= freq[c + 1]
  {
  }

  // The nodes a raised node overtakes all had its own old frequency.
  lemma OvertakenEqual(son: seq<nat>, parent: seq<nat>, freq: seq<nat>, c: nat, l: nat)
    requires Climbing(son, parent, freq, c)
    requires c <= l < TSIZE && freq[l] < freq[c] + 1
    ensures freq[l] == freq[c]
  {
  }

  lemma SwapSums(son: seq<nat>, parent: seq<nat>, freq: seq<nat>, c: nat, l: nat)
    requires Swappable(son, parent, c, l)
    requires |freq| == TSIZE + 1 && freq[l] == freq[c] && SumsBut(son, freq, c)
    ensures SumsBut(SwapSon(son, c, l), freq, l)
  {
  }

  lemma SwapLeafTotal(son: seq<nat>, w: seq<int>, c: nat, l: nat)
    requires c < l < |son| && |w| == |son| && w[c] == w[l]
    ensures LeafTotal(SwapSon(son, c, l), w, |son|) == LeafTotal(son, w, |son|)
  {
    LeafTotalUpdate(son, w, |son|, c, son[l], w[c]);
    LeafTotalUpdate(son[c := son[l]], w, |son|, l, son[c], w[l]);
    assert w[c := w[c]] == w && w[l := w[l]] == w;
  }

  // Exchanging c with a later node of equal frequency keeps the climb going
  // from there, and leaves every symbol's frequency alone.
  lemma SwapClimbing(son: seq<nat>, parent: seq<nat>, freq: seq<nat>, c: nat, l: nat)
    requires Climbing(son, parent, freq, c)
    requires Swappable(son, parent, c, l) && freq[l] == freq[c]
    ensures Climbing(SwapSon(son, c, l), SwapParent(son, parent, c, l), freq, l)
    ensures forall s: nat | s < N_CHAR ::
      SymbolFreq(SwapParent(son, parent, c, l), freq, s) == SymbolFreq(parent, freq, s)
  {
    hide NodeOk, ChildOk, LeafOk, SwapParent, SymbolFreq, Sorted, SumsBut, LeafTotal, Weights;
    SwapShape(son, parent, c, l);
    SwapSums(son, parent, freq, c, l);
    SwapLeafTotal(son, Weights(freq), c, l);
    SwapLeafTotal(son, Ones(), c, l);
    SwapFreqs(son, parent, freq, c, l);
  }

  lemma SwapFreqs(son: seq<nat>, parent: seq<nat>, freq: seq<nat>, c: nat, l: nat)
    requires Swappable(son, parent, c, l) && |freq| == TSIZE + 1 && freq[l] == freq[c]
    ensures forall s: nat | s < N_CHAR ::
      SymbolFreq(SwapParent(son, parent, c, l), freq, s) == SymbolFreq(parent, freq, s)
  {
    hide SwapParent, NodeOk, ChildOk, LeafOk;
    forall s: nat | s < N_CHAR
      ensures SymbolFreq(SwapParent(son, parent, c, l), freq, s) == SymbolFreq(parent, freq, s)
    {
      SwapParentAt(son, parent, c, l, TSIZE + s);
    }
  }

  ghost function Raise(freq: seq<nat>, c: nat): (f: seq<nat>)
    requires c < |freq|
    ensures |f| == |freq|
  {
    freq[c := freq[c] + 1]
  }

  lemma RaiseSums(son: seq<nat>, parent: seq<nat>, freq: seq<nat>, c: nat)
    requires Shape(son, parent) && |freq| == TSIZE + 1 && c < TSIZE
    requires SumsBut(son, freq, c)
    ensures SumsBut(son, Raise(freq, c), if c == ROOT then TSIZE else parent[c])
  {
    var freq' := Raise(freq, c);
    var hole := if c == ROOT then TSIZE else parent[c];
    if c < ROOT {
      assert ChildOk(son, parent, c);
    }
    forall n: nat | n < TSIZE && son[n] < TSIZE
      ensures freq'[n] + (if n == hole then 1 else 0) == Children(son, freq', n)
    {
      assert NodeOk(son, parent, n);
      assert freq[n] + (if n == c then 1 else 0) == Children(son, freq, n);
    }
  }

  lemma RaiseLeafTotal(son: seq<nat>, freq: seq<nat>, c: nat)
    requires |son| == TSIZE && |freq| == TSIZE + 1 && c < TSIZE
    ensures LeafTotal(son, Weights(Raise(freq, c)), TSIZE)
         == LeafTotal(son, Weights(freq), TSIZE) + (if son[c] >= TSIZE then 1 else 0)
  {
    LeafTotalUpdate(son, Weights(freq), TSIZE, c, son[c], freq[c] + 1);
    assert son[c := son[c]] == son;
    assert Weights(freq)[c := freq[c] + 1] == Weights(Raise(freq, c));
  }

  // Incrementing node c below the root moves the deficit to its parent.
  lemma RaiseClimbing(son: seq<nat>, parent: seq<nat>, freq: seq<nat>, c: nat)
    requires Climbing(son, parent, freq, c)
    requires c < ROOT && freq[c] < freq[c + 1]
    ensures c < parent[c] < TSIZE && son[parent[c]] < TSIZE
    ensures Climbing(son, parent, Raise(freq, c), parent[c])
  {
    assert ChildOk(son, parent, c);
    RaiseSums(son, parent, freq, c);
    RaiseLeafTotal(son, freq, c);
  }

  // Incrementing the root completes the update.
  lemma RaiseRoot(son: seq<nat>, parent: seq<nat>, freq: seq<nat>)
    requires Climbing(son, parent, freq, ROOT) && son[ROOT] < TSIZE
    ensures Weighted(son, Raise(freq, ROOT))
  {
    RaiseSums(son, parent, freq, ROOT);
    RaiseLeafTotal(son, freq, ROOT);
  }

  // The increment is seen by the symbol at node c, if c is a leaf, and by no other.
  lemma RaiseSymbols(son: seq<nat>, parent: seq<nat>, freq: seq<nat>, c: nat, s: nat)
    requires Shape(son, parent) && |freq| == TSIZE + 1 && c < TSIZE && s < N_CHAR
    ensures SymbolFreq(parent, Raise(freq, c), s)
         == SymbolFreq(parent, freq, s) + (if son[c] == TSIZE + s then 1 else 0)
  {
    assert LeafOk(son, parent, s) && NodeOk(son, parent, c);
  }

  // The arrays after c has been exchanged with l, or left alone when c == l.
  ghost predicate Exchanged(son: seq<nat>, parent: seq<nat>, c: nat, l: nat, son': seq<nat>, parent': seq<nat>) {
    if c == l then son' == son && parent' == parent
    else
      && Swappable(son, parent, c, l)
      && son' == SwapSon(son, c, l)
      && parent' == SwapParent(son, parent, c, l)
  }

  // The root is internal: a tree has more than one leaf.
  lemma RootIsInternal(son: seq<nat>, parent: seq<nat>)
    requires Shape(son, parent)
    ensures son[ROOT] < TSIZE
  {
    assert ChildOk(son, parent, ROOT - 1) && NodeOk(son, parent, ROOT);
  }

  // The next state of the climb: done, or at node up.
  ghost predicate Climbed(son: seq<nat>, parent: seq<nat>, freq: seq<nat>, n: nat, up: nat) {
    match up
    case 0 => Shape(son, parent) && Weighted(son, freq)
    case _ => n < up < TSIZE && Climbing(son, parent, freq, up) && son[up] < TSIZE
  }

  ghost predicate SameLengths(parent: seq<nat>, freq: seq<nat>) {
    |parent| == TSIZE + N_CHAR && |freq| == TSIZE + 1
  }

  // Every symbol has kept its frequency, but for one more occurrence of the
  // symbol whose leaf code is given.
  ghost predicate Counted(parent: seq<nat>, freq: seq<nat>, parent': seq<nat>, freq': seq<nat>, leaf: nat) {
    && SameLengths(parent, freq)
    && SameLengths(parent', freq')
    && forall s: nat | s < N_CHAR ::
         SymbolFreq(parent', freq', s) == SymbolFreq(parent, freq, s) + (if leaf == TSIZE + s then 1 else 0)
  }

  // One whole iteration of the climb.
  lemma ClimbStep(son: seq<nat>, parent: seq<nat>, freq: seq<nat>, c: nat, l: nat, son': seq<nat>, parent': seq<nat>)
    requires Climbing(son, parent, freq, c)
    requires c <= l < TSIZE && freq[c] == freq[l] < freq[l + 1]
    requires Exchanged(son, parent, c, l, son', parent')
    ensures Climbed(son', parent', Raise(freq, l), c, parent'[l])
    ensures Counted(parent, freq, parent', Raise(freq, l), son[c])
  {
    if l != c {
      SwapClimbing(son, parent, freq, c, l);
    }
    if l < ROOT {
      RaiseClimbing(son', parent', freq, l);
    } else {
      RootIsInternal(son, parent);
      RaiseRoot(son', parent', freq);
    }
    forall s: nat | s < N_CHAR
      ensures SymbolFreq(parent', Raise(freq, l), s)
        == SymbolFreq(parent, freq, s) + (if son[c] == TSIZE + s then 1 else 0)
    {
      RaiseSymbols(son', parent', freq, l, s);
    }
  }

  lemma StartClimb(son: seq<nat>, parent: seq<nat>, freq: seq<nat>, c: nat)
    requires Shape(son, parent) && Weighted(son, freq) && freq[ROOT] < MAX_FREQ && c < N_CHAR
    ensures parent[TSIZE + c] < TSIZE && son[parent[TSIZE + c]] == TSIZE + c
    ensures Climbing(son, parent, freq, parent[TSIZE + c])
  {
    assert LeafOk(son, parent, c);
  }

  lemma CountedOnce(p0: seq<nat>, f0: seq<nat>, p1: seq<nat>, f1: seq<nat>, p2: seq<nat>, f2: seq<nat>,
                    leaf: nat, inner: nat)
    requires Counted(p0, f0, p1, f1, leaf) && Counted(p1, f1, p2, f2, inner) && inner < TSIZE
    ensures Counted(p0, f0, p2, f2, leaf)
  {
  }
}
