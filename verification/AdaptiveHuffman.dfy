/**
 The adaptive Huffman tree of the Teledisk decompressor, updated in place: its
 construction, the climb after each symbol, and the periodic rebuild.
 */
module AdaptiveHuffman {
  import opened HuffmanShape
  import opened HuffmanForest
  import opened HuffmanUpdate

  class HuffmanTree {
    const parent: array<nat>
    const son: array<nat>
    const freq: array<nat>

    ghost predicate Allocated() {
      && parent.Length == TSIZE + N_CHAR
      && son.Length == TSIZE
      && freq.Length == TSIZE + 1
      && parent != son && parent != freq && son != freq
    }

    ghost predicate Valid()
      reads this, parent, son, freq
    {
      && Allocated()
      && Shape(son[..], parent[..])
      && Weighted(son[..], freq[..])
    }

    ghost function State(): (t: Tables)
      reads this, parent, son, freq
    {
      Tables(son[..], parent[..], freq[..])
    }

    ghost function Frequency(s: nat): nat
      requires Allocated() && s < N_CHAR
      reads parent, freq
    {
      SymbolFreq(parent[..], freq[..], s)
    }

    // init_decompress(): every symbol has been seen once.
    constructor ()
      ensures Valid() && fresh(parent) && fresh(son) && fresh(freq)
      ensures FirstTree(State())
      ensures forall s: nat | s < N_CHAR :: Frequency(s) == 1
    {
      parent := new nat[TSIZE + N_CHAR](k => 0);
      son := new nat[TSIZE](k => 0);
      freq := new nat[TSIZE + 1](k => 0);
      new;
      SeedLeaves();
      var f := GrowFirstTree();
      freq[TSIZE] := SENTINEL;
      FinishFirstTree(f);
    }

    // The leaves of the first tree, in symbol order.
    method SeedLeaves()
      requires Allocated() && forall k: nat | k < parent.Length :: parent[k] == 0
      modifies parent, son, freq
      ensures son[..N_CHAR] == FirstForest().son && freq[..N_CHAR] == FirstForest().freq
      ensures Connected(FirstForest(), parent[..], N_CHAR)
    {
      var i: nat := 0;
      while i < N_CHAR
        invariant i <= N_CHAR && parent[ROOT] == 0
        invariant forall k: nat | k < i :: freq[k] == 1 && son[k] == k + TSIZE
        invariant forall v: nat | TSIZE <= v < TSIZE + i :: parent[v] == v - TSIZE
      {
        freq[i] := 1;
        son[i] := i + TSIZE;
        parent[i + TSIZE] := i;
        i := i + 1;
      }
      FirstConnected(parent[..]);
    }

    // The internal nodes of the first tree, each joining the next two nodes.
    method GrowFirstTree() returns (ghost f: Forest)
      requires Allocated()
      requires son[..N_CHAR] == FirstForest().son && freq[..N_CHAR] == FirstForest().freq
      requires Connected(FirstForest(), parent[..], N_CHAR)
      modifies parent, son, freq
      ensures FirstStage(f, parent[..])
      ensures |f.son| == TSIZE && son[..] == f.son && freq[..TSIZE] == f.freq
    {
      hide FirstStage, Connected, Join;
      f := FirstForest();
      FirstStageStart(parent[..]);
      var i: nat, j: nat := N_CHAR, 0;
      while i <= ROOT
        invariant N_CHAR <= i == |f.son| <= TSIZE && j == |f.up| && Sizes(f)
        invariant son[..i] == f.son && freq[..i] == f.freq
        invariant FirstStage(f, parent[..])
      {
        FirstStageNext(f, parent[..]);
        f := GrowNode(i, j, f);
        i, j := i + 1, j + 2;
      }
    }

    // Node i joins nodes j and j + 1.
    method GrowNode(i: nat, j: nat, ghost f: Forest) returns (ghost g: Forest)
      requires Allocated() && Sizes(f) && i == |f.son| < TSIZE && j == |f.up|
      requires son[..i] == f.son && freq[..i] == f.freq && Fits(f.freq[j] + f.freq[j + 1])
      modifies parent, son, freq
      ensures g == Join(f, i) && son[..i + 1] == g.son && freq[..i + 1] == g.freq
      ensures parent[..] == Adopt(old(parent[..]), j, i)
    {
      freq[i] := freq[j] + freq[j + 1];
      son[i] := j;
      parent[j], parent[j + 1] := i, i;
      g := Join(f, i);
    }

    lemma FinishFirstTree(f: Forest)
      requires Allocated() && freq[TSIZE] == SENTINEL && FirstStage(f, parent[..])
      requires |f.son| == TSIZE && son[..] == f.son && freq[..TSIZE] == f.freq
      ensures Valid() && FirstTree(State()) && forall s: nat | s < N_CHAR :: Frequency(s) == 1
    {
      hide Linked, Balanced, Connected, FirstGrown, Shape, Weighted;
      var w := seq(N_CHAR, i => 1);
      assert freq[..] == f.freq + [SENTINEL];
      FinishShape(f, w, parent[..]);
      FinishWeighted(f, w, N_CHAR, freq[..]);
      FinishSymbols(f, w, parent[..], freq[..]);
      FirstTreeGrown(f, State());
    }

    // Exchange the subtrees of nodes c and l.
    method Exchange(c: nat, l: nat)
      requires Allocated() && Swappable(son[..], parent[..], c, l)
      modifies parent, son
      ensures Exchanged(old(son[..]), old(parent[..]), c, l, son[..], parent[..])
    {
      assert NodeOk(son[..], parent[..], c) && NodeOk(son[..], parent[..], l);
      var i := son[c];
      parent[i] := l;
      if i < TSIZE {
        parent[i + 1] := l;
      }
      var j := son[l];
      parent[j] := c;
      son[l] := i;
      if j < TSIZE {
        parent[j + 1] := c;
      }
      son[c] := j;
    }

    // Walk up from l past every node lighter than k, and return the last of them.
    method LastLighter(start: nat, k: nat) returns (l: nat)
      requires freq.Length == TSIZE + 1 && start < TSIZE
      requires freq[start] < k <= freq[TSIZE]
      ensures start <= l < TSIZE && freq[l] < k <= freq[l + 1]
    {
      l := start + 1;
      while k > freq[l]
        invariant start < l <= TSIZE && freq[l - 1] < k
        decreases TSIZE - l
      {
        l := l + 1;
      }
      l := l - 1;
    }

    // The body of the climb: increment node c, exchange it with the last node it
    // has overtaken, and return where it ended up.
    method Overtake(c: nat) returns (l: nat)
      requires Allocated() && Climbing(son[..], parent[..], freq[..], c)
      modifies parent, son, freq
      ensures c <= l < TSIZE && old(freq[c]) == old(freq[..])[l] < old(freq[..])[l + 1]
      ensures freq[..] == Raise(old(freq[..]), l)
      ensures Exchanged(old(son[..]), old(parent[..]), c, l, son[..], parent[..])
    {
      hide Shape, SumsBut, LeafTotal;
      ghost var S, P, F := son[..], parent[..], freq[..];
      ClimbingFits(S, P, F, c);
      var k := freq[c] + 1;
      assert Fits(k);
      freq[c] := k;
      l := c + 1;
      if k > freq[l] {
        l := LastLighter(l, k);
        OvertakenEqual(S, P, F, c, l);
        EqualsSwappable(S, P, F, c, l);
        freq[c] := freq[l];
        freq[l] := k;
        assert freq[..] == Raise(F, l);
        Exchange(c, l);
      } else {
        l := c;
        ClimbingFits(S, P, F, c);
      }
    }

    // One iteration of the climb from node n to its parent; 0 when the root is done.
    method Climb(n: nat) returns (up: nat)
      requires Allocated() && Climbing(son[..], parent[..], freq[..], n)
      modifies parent, son, freq
      ensures State() == Raised(old(State()), n) && up == Above(old(State()), n)
      ensures Climbed(son[..], parent[..], freq[..], n, up)
      ensures Counted(old(parent[..]), old(freq[..]), parent[..], freq[..], old(son[n]))
    {
      hide Shape, Weighted, SumsBut, LeafTotal, Counted;
      ghost var t := State();
      RaisedClimbs(t, n);
      var l := Overtake(n);
      LastEqualFound(t.freq, n, l);
      up := parent[l];
    }

    // The climb of update(): one more occurrence of symbol c.
    method Increment(c: nat)
      requires Valid() && c < N_CHAR && freq[ROOT] < MAX_FREQ
      modifies parent, son, freq
      ensures Valid() && State() == Incremented(old(State()), c)
      ensures Counted(old(parent[..]), old(freq[..]), parent[..], freq[..], TSIZE + c)
    {
      hide Shape, Weighted, SumsBut, Sorted, LeafTotal, Raised, Above, Counted;
      ghost var t := State();
      StartClimb(t.son, t.parent, t.freq, c);
      IncrementCounts(t, c);
      ghost var below := parent[c + TSIZE];
      var n := Climb(parent[c + TSIZE]);
      while n != 0
        invariant Climbed(son[..], parent[..], freq[..], below, n)
        invariant Incremented(t, c) == if n == 0 then State() else ClimbFrom(State(), n)
        decreases if n == 0 then 0 else TSIZE - n
      {
        below := n;
        n := Climb(n);
      }
    }

    // ------------------------------------------------------------- rebuild

    // Move node i down to j, halving its frequency.
    method MoveLeaf(i: nat, j: nat)
      requires Allocated() && j <= i < TSIZE
      modifies son, freq
      ensures son[..j + 1] == old(son[..j]) + [old(son[i])] && son[i + 1..] == old(son[i + 1..])
      ensures freq[..j + 1] == old(freq[..j]) + [Half(old(freq[i]))] && freq[i + 1..] == old(freq[i + 1..])
    {
      freq[j] := Half(freq[i]);
      son[j] := son[i];
    }

    // The loop state of GatherLeaves: the leaves found so far are at the front,
    // and the nodes still to be visited are untouched.
    ghost predicate Gathering(S: seq<nat>, P: seq<nat>, F: seq<nat>, i: nat, j: nat, leafAt: seq<nat>)
      requires Allocated()
      reads son, freq
    {
      && j <= i <= TSIZE == |S|
      && |F| == TSIZE + 1
      && son[i..] == S[i..]
      && freq[i..] == F[i..]
      && Gathered(S, P, F, i, son[..j], freq[..j], leafAt)
      && son[..j] == LeafSons(S, i) && freq[..j] == LeafHalves(S, F, i)
    }

    // Visit node i.
    method GatherNode(i: nat, j: nat, ghost S: seq<nat>, ghost P: seq<nat>, ghost F: seq<nat>, ghost leafAt: seq<nat>)
      returns (j': nat, ghost leafAt': seq<nat>)
      requires Allocated() && i < TSIZE && Gathering(S, P, F, i, j, leafAt) && Sorted(F, TSIZE)
      modifies son, freq
      ensures Gathering(S, P, F, i + 1, j', leafAt')
    {
      j', leafAt' := j, leafAt;
      assert son[i] == son[i..][0] == S[i] && freq[i] == freq[i..][0] == F[i];
      assert S[i + 1..] == S[i..][1..] && F[i + 1..] == F[i..][1..];
      if son[i] >= TSIZE {
        GatherLeaf(S, P, F, i, son[..j], freq[..j], leafAt);
        MoveLeaf(i, j);
        leafAt' := leafAt[S[i] - TSIZE := j];
        j' := j + 1;
      } else {
        GatherSkip(S, P, F, i, son[..j], freq[..j], leafAt);
      }
    }

    // First pass: move the leaves to the front, halving their frequencies.
    method GatherLeaves() returns (ghost f: Forest, ghost total: int)
      requires Valid()
      modifies son, freq
      ensures Linked(f, Halved(old(parent[..]), old(freq[..]))) && Balanced(f, total)
      ensures 2 * total <= old(freq[ROOT]) + N_CHAR
      ensures |f.up| == 0 && son[..N_CHAR] == f.son && freq[..N_CHAR] == f.freq
      ensures f.son == LeafSons(old(son[..]), TSIZE) && f.freq == LeafHalves(old(son[..]), old(freq[..]), TSIZE)
      ensures freq[TSIZE] == SENTINEL
    {
      ghost var S, P, F := son[..], parent[..], freq[..];
      ghost var leafAt: seq<nat> := seq(N_CHAR, s => 0);
      var i: nat, j: nat := 0, 0;
      while i < TSIZE
        invariant Gathering(S, P, F, i, j, leafAt)
      {
        j, leafAt := GatherNode(i, j, S, P, F, leafAt);
        i := i + 1;
      }
      f := Forest(son[..j], freq[..j], leafAt, []);
      total := LeafTotal(f.son, f.freq, j);
      GatheredForest(S, P, F, f.son, f.freq, leafAt);
      assert freq[TSIZE] == freq[i..][0] == F[TSIZE];
    }

    // The arrays hold forest f in their first |f.son| nodes.
    ghost predicate Holds(f: Forest)
      requires Allocated()
      reads son, freq
    {
      && |f.son| == |f.freq| <= TSIZE
      && son[..|f.son|] == f.son
      && freq[..|f.son|] == f.freq
      && freq[TSIZE] == SENTINEL
    }

    // memmove() of the first j elements from k on, up one place, and x put at k.
    static method InsertElement(a: array<nat>, k: nat, j: nat, x: nat)
      requires k <= j < a.Length && Fits(x)
      modifies a
      ensures a[..j + 1] == InsertAt(old(a[..j]), k, x) && a[j + 1..] == old(a[j + 1..])
    {
      forall m | k < m <= j {
        a[m] := a[m - 1];
      }
      a[k] := x;
      assert a[..k] == old(a[..j])[..k] && a[k + 1..j + 1] == old(a[..j])[k..];
      assert a[..j + 1] == a[..k] + [a[k]] + a[k + 1..j + 1];
    }

    // Open a slot at k by moving nodes k..j up one place, and put a node there.
    method InsertNode(k: nat, j: nat, f: nat, i: nat)
      requires Allocated() && k <= j < TSIZE && Fits(f) && Fits(i)
      modifies son, freq
      ensures son[..j + 1] == InsertAt(old(son[..j]), k, i)
      ensures freq[..j + 1] == InsertAt(old(freq[..j]), k, f)
      ensures freq[TSIZE] == old(freq[TSIZE])
    {
      hide InsertAt;
      InsertElement(freq, k, j, f);
      assert freq[TSIZE] == freq[j + 1..][TSIZE - j - 1];
      InsertElement(son, k, j, i);
    }

    // The place behind all nodes among the first j that are no heavier than sum.
    method FindSlot(sum: nat, i: nat, j: nat, ghost f: Forest) returns (k: nat)
      requires freq.Length == TSIZE + 1 && Sizes(f) && j == |f.son| < TSIZE && i == |f.up|
      requires freq[..j] == f.freq && Sorted(f.freq, j) && sum == f.freq[i] + f.freq[i + 1]
      ensures JoinPoint(f, k) && k == Slot(f.freq, sum, j)
    {
      hide Slot, Sorted;
      var m: nat := j - 1;
      while sum < freq[m]
        invariant i + 1 <= m < j
        invariant m + 1 < j ==> sum < f.freq[m + 1]
        decreases m
      {
        m := m - 1;
      }
      k := m + 1;
      SlotFound(f.freq, sum, k);
    }

    // One step of rebuild's second pass: join nodes i and i + 1 under a new node.
    method JoinPair(i: nat, j: nat, ghost f: Forest, ghost total: int) returns (ghost k: nat)
      requires Allocated() && Balanced(f, total) && total <= MAX_FREQ
      requires j == |f.son| < TSIZE && i == |f.up| && Holds(f)
      modifies son, freq
      ensures JoinPoint(f, k) && Holds(Join(f, k))
      ensures k == Slot(f.freq, f.freq[i] + f.freq[i + 1], |f.freq|)
    {
      hide LeafTotal, Total, Sorted, Slot, InsertAt, JoinPoint, Shift;
      PairWithinTotal(f, total);
      var sum := freq[i] + freq[i + 1];
      assert Fits(sum);
      freq[j] := sum;
      var m := FindSlot(sum, i, j, f);
      SlotWithin(f, m);
      InsertNode(m, j, sum, i);
      k := m;
    }

    // rebuild's last pass: make parent[] the inverse of son[].
    method ConnectParents(ghost f: Forest, ghost w: seq<nat>)
      requires Allocated() && Linked(f, w) && son[..] == f.son && parent[ROOT] == 0
      modifies parent
      ensures Connected(f, parent[..], TSIZE)
    {
      var i: nat := 0;
      while i < TSIZE
        invariant i <= TSIZE
        invariant Connected(f, parent[..], i)
      {
        ghost var P := parent[..];
        ConnectStep(f, w, P, i);
        var k := son[i];
        assert k == f.son[i];
        if k >= TSIZE {
          parent[k] := i;
        } else {
          parent[k], parent[k + 1] := i, i;
        }
        assert parent[..] == Adopt(P, k, i);
        i := i + 1;
      }
    }

    // Second pass: join pairs until one tree is left.
    method JoinAll(ghost first: Forest, ghost w: seq<nat>, ghost total: int) returns (ghost f: Forest)
      requires Allocated() && Linked(first, w) && Balanced(first, total) && total <= MAX_FREQ
      requires |first.son| == N_CHAR && |first.up| == 0 && Holds(first)
      modifies son, freq
      ensures Linked(f, w) && Balanced(f, total) && |f.son| == TSIZE && Holds(f)
      ensures Growing(Nodes(first.son, first.freq)) && Nodes(f.son, f.freq) == Grown(Nodes(first.son, first.freq))
    {
      hide Linked, Balanced, JoinPoint, Slot, InsertAt, Shift, Join, Grown;
      SizesOf(first, w);
      f := first;
      var i: nat, j: nat := 0, N_CHAR;
      while j < TSIZE
        invariant N_CHAR <= j == |f.son| <= TSIZE && i == |f.up| && Sizes(f)
        invariant Linked(f, w) && Balanced(f, total) && Holds(f)
        invariant Grown(Nodes(f.son, f.freq)) == Grown(Nodes(first.son, first.freq))
      {
        ghost var k := JoinPair(i, j, f, total);
        RebuildNext(f, w, total, k);
        f := Join(f, k);
        i, j := i + 2, j + 1;
      }
      GrownDone(Nodes(f.son, f.freq));
    }

    // The tree is full: halve every symbol's frequency and build the tree anew.
    method Rebuild()
      requires Valid() && freq[ROOT] == MAX_FREQ
      modifies parent, son, freq
      ensures Valid() && Rebuilt(old(State()), State())
      ensures forall s: nat | s < N_CHAR :: old(Frequency(s)) <= 2 * Frequency(s) <= old(Frequency(s)) + 1
    {
      hide Linked, Balanced, Connected, NodeOk, ChildOk, LeafOk, Weighted, AllHalved, Grown, LeafSons, LeafHalves;
      ghost var t := State();
      ghost var w := Halved(parent[..], freq[..]);
      ghost var first, total := GatherLeaves();
      ghost var f := JoinAll(first, w, total);
      assert son[..] == f.son && freq[..] == f.freq + [SENTINEL];
      ConnectParents(f, w);
      FinishRebuilt(t, f, total, State());
      HalvedUp(t.parent, t.freq, parent[..], freq[..]);
    }

    // update(): count one more occurrence of symbol c, rebuilding a full tree first.
    method Update(c: nat)
      requires Valid() && c < N_CHAR
      modifies parent, son, freq
      ensures Valid() && Updated(old(State()), c, State())
      ensures Recounted(old(parent[..]), old(freq[..]), parent[..], freq[..], c)
      // one more for c; a full tree has every frequency halved before, rounding up
      ensures forall s: nat | s < N_CHAR ::
        var f, g := old(Frequency(s)), Frequency(s) - if s == c then 1 else 0;
        if old(freq[ROOT]) == 0x8000 then f <= 2 * g <= f + 1 else g == f
    {
      hide Shape, Weighted, Recounted, Incremented, Grown, AllHalved;
      ghost var t := State();
      if freq[ROOT] == MAX_FREQ {
        Rebuild();
      } else {
        BelowMax(son[..], freq[..]);
      }
      ghost var m := State();
      assert Refreshed(t, m);
      Increment(c);
      UpdatedCounts(t, c, State());
      RecountedUp(t.parent, t.freq, parent[..], freq[..], c);
    }
  }

  lemma SlotWithin(f: Forest, k: nat)
    requires JoinPoint(f, k)
    ensures k <= |f.son|
  {
  }

  lemma BelowMax(son: seq<nat>, freq: seq<nat>)
    requires |son| == TSIZE && |freq| == TSIZE + 1 && Weighted(son, freq) && freq[ROOT] != MAX_FREQ
    ensures freq[ROOT] < MAX_FREQ
  {
  }
}
