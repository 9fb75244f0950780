/**
 What update() makes of the three tables, as functions of what they were.

 The tree decides what the next bits mean, so decoding is only settled when every
 exchange of nodes and every slot chosen by the rebuild is: the climb raises each
 node to the last place of its old frequency, and the rebuild puts each new node
 behind all nodes that are no heavier.
 */
module HuffmanUpdate {
  import opened HuffmanShape
  import opened HuffmanForest

  datatype Tables = Tables(son: seq<nat>, parent: seq<nat>, freq: seq<nat>)

  ghost predicate Sound(t: Tables) {
    Shape(t.son, t.parent) && Weighted(t.son, t.freq)
  }

  // parent[] holds nothing that son[] does not.
  lemma ParentDetermined(son: seq<nat>, p: seq<nat>, q: seq<nat>)
    requires Shape(son, p) && Shape(son, q)
    ensures p == q
  {
    forall v: nat | v < TSIZE + N_CHAR ensures p[v] == q[v] {
      if v < ROOT {
        assert ChildOk(son, p, v) && NodeOk(son, q, p[v]);
      } else if v >= TSIZE {
        assert LeafOk(son, p, v - TSIZE) && NodeOk(son, q, p[v]);
      }
    }
  }

  // -------------------------------------------------------- the first tree

  // The leaves in symbol order, and above them each node joining the next pair.
  ghost predicate FirstSons(son: seq<nat>) {
    && |son| == TSIZE
    && (forall i: nat | i < N_CHAR :: son[i] == i + TSIZE)
    && (forall i: nat | N_CHAR <= i < TSIZE :: son[i] == 2 * (i - N_CHAR))
  }

  // Every symbol has been seen once.
  ghost predicate FirstTree(t: Tables) {
    && Sound(t)
    && FirstSons(t.son)
    && forall i: nat | i < N_CHAR :: t.freq[i] == 1
  }

  // It has a leaf for each of 256 bytes and 58 lengths, in this order, ...
  lemma FirstLeaf(t: Tables, i: nat)
    requires FirstTree(t) && i < 314
    ensures |t.son| == 627 && |t.parent| == 627 + 314 && |t.freq| == 628
    ensures t.son[i] == 627 + i && t.parent[627 + i] == i && t.freq[i] == 1
  {
    hide NodeOk, ChildOk, LeafOk, LeafTotal, Sorted, SumsBut;
    LeafParent(t, i);
  }

  lemma LeafParent(t: Tables, i: nat)
    requires Sound(t) && i < N_CHAR && t.son[i] == TSIZE + i
    ensures t.parent[TSIZE + i] == i
  {
    hide ChildOk, LeafOk, Weighted;
    assert NodeOk(t.son, t.parent, i);
  }

  // ... and 313 nodes above them, which join nodes 0 and 1, 2 and 3, and so on.
  lemma FirstNode(t: Tables, i: nat)
    requires FirstTree(t) && 314 <= i < 627
    ensures |t.son| == 627 && |t.freq| == 628
    ensures t.son[i] == 2 * (i - 314) && t.freq[i] == t.freq[2 * (i - 314)] + t.freq[2 * (i - 314) + 1]
  {
    hide Shape, Weighted;
    NodeSum(t, i, 2 * (i - 314));
  }

  lemma NodeSum(t: Tables, i: nat, j: nat)
    requires Weighted(t.son, t.freq) && i < TSIZE && t.son[i] == j && j + 1 < TSIZE
    ensures |t.freq| == TSIZE + 1 && t.freq[i] == t.freq[j] + t.freq[j + 1]
  {
    hide LeafTotal, Sorted;
    assert t.freq[i] == Children(t.son, t.freq, i);
  }

  lemma FirstSonsUnique(a: seq<nat>, b: seq<nat>)
    requires FirstSons(a) && FirstSons(b)
    ensures a == b
  {
    assert forall i: nat | i < TSIZE :: a[i] == b[i];
  }

  lemma {:induction false} FirstFreqs(son: seq<nat>, f: seq<nat>, g: seq<nat>, n: nat)
    requires |f| == |g| == TSIZE + 1 && n <= TSIZE
    requires forall i: nat | i < N_CHAR :: f[i] == g[i]
    requires FirstSons(son)
    requires SumsBut(son, f, TSIZE) && SumsBut(son, g, TSIZE)
    ensures forall i: nat | i < n :: f[i] == g[i]
  {
    if n > 0 {
      FirstFreqs(son, f, g, n - 1);
      if n > N_CHAR {
        assert f[n - 1] == Children(son, f, n - 1) && g[n - 1] == Children(son, g, n - 1);
      }
    }
  }

  lemma FirstTreeUnique(t: Tables, r: Tables)
    requires FirstTree(t) && FirstTree(r)
    ensures t == r
  {
    hide Shape, NodeOk, ChildOk, LeafOk, LeafTotal, Sorted, SumsBut;
    FirstSonsUnique(t.son, r.son);
    ParentDetermined(t.son, t.parent, r.parent);
    FirstFreqs(t.son, t.freq, r.freq, TSIZE);
    assert t.freq == r.freq;
  }

  // The forest while the first tree is being built.
  ghost predicate FirstGrown(f: Forest) {
    && Sizes(f)
    && (forall i: nat | i < N_CHAR :: f.son[i] == i + TSIZE && f.freq[i] == 1)
    && (forall i: nat | N_CHAR <= i < |f.son| :: f.son[i] == 2 * (i - N_CHAR))
  }

  lemma FirstGrownStart()
    ensures FirstGrown(FirstForest()) && InStep(FirstForest())
  {
  }

  lemma FirstGrownNext(f: Forest)
    requires FirstGrown(f) && |f.son| < TSIZE
    ensures FirstGrown(Join(f, |f.son|))
  {
  }

  // All that is known of it then.
  ghost predicate FirstStage(f: Forest, parent: seq<nat>) {
    && Linked(f, seq(N_CHAR, i => 1)) && Balanced(f, N_CHAR)
    && InStep(f) && FirstGrown(f) && Connected(f, parent, |f.son|)
  }

  lemma FirstStageStart(parent: seq<nat>)
    requires Connected(FirstForest(), parent, N_CHAR)
    ensures FirstStage(FirstForest(), parent)
  {
    hide Linked, Balanced, Connected;
    FirstForestOk();
    FirstGrownStart();
  }

  lemma FirstStageNext(f: Forest, parent: seq<nat>)
    requires FirstStage(f, parent) && |f.son| < TSIZE
    ensures Sizes(f) && Sizes(Join(f, |f.son|)) && |Join(f, |f.son|).son| == |f.son| + 1
    ensures |Join(f, |f.son|).up| == |f.up| + 2 && Fits(f.freq[|f.up|] + f.freq[|f.up| + 1])
    ensures |parent| == TSIZE + N_CHAR && FirstStage(Join(f, |f.son|), Adopt(parent, |f.up|, |f.son|))
  {
    hide Linked, Balanced, InStep, FirstGrown, JoinPoint;
    var w := seq(N_CHAR, i => 1);
    StageSizes(f, parent);
    JoinAtEnd(f, w, N_CHAR);
    PairWithinTotal(f, N_CHAR);
    JoinLinked(f, w, |f.son|);
    JoinBalanced(f, N_CHAR, |f.son|);
    ConnectJoined(f, w, parent);
    FirstGrownNext(f);
  }

  lemma StageSizes(f: Forest, parent: seq<nat>)
    requires Linked(f, seq(N_CHAR, i => 1)) && Connected(f, parent, |f.son|)
    ensures Sizes(f) && |parent| == TSIZE + N_CHAR
  {
  }

  lemma FirstTreeGrown(f: Forest, t: Tables)
    requires FirstGrown(f) && |f.son| == TSIZE && Sound(t) && t.son == f.son && t.freq[..TSIZE] == f.freq
    ensures FirstTree(t)
  {
    hide Shape, SumsBut, Sorted, LeafTotal;
    assert forall i: nat | i < N_CHAR :: t.freq[i] == t.freq[..TSIZE][i];
  }

  // ------------------------------------------------------------- the climb

  // The last node as heavy as node c: where c goes when it gains one.
  ghost function LastEqual(freq: seq<nat>, c: nat): (l: nat)
    requires c < TSIZE && |freq| == TSIZE + 1
    ensures c <= l < TSIZE && freq[l] == freq[c]
    ensures l < ROOT ==> freq[l + 1] != freq[l]
    decreases TSIZE - c
  {
    if c < ROOT && freq[c + 1] == freq[c] then LastEqual(freq, c + 1) else c
  }

  lemma LastEqualFound(freq: seq<nat>, c: nat, l: nat)
    requires |freq| == TSIZE + 1 && Sorted(freq, TSIZE) && c <= l < TSIZE
    requires freq[c] == freq[l] < freq[l + 1]
    ensures l == LastEqual(freq, c)
  {
    var m := LastEqual(freq, c);
    assert l < m ==> l + 1 < TSIZE;
  }

  // One iteration of the climb.
  ghost function Raised(t: Tables, c: nat): (r: Tables)
    requires Climbing(t.son, t.parent, t.freq, c)
    ensures |r.parent| == TSIZE + N_CHAR
  {
    var l := LastEqual(t.freq, c);
    EqualsSwappable(t.son, t.parent, t.freq, c, l);
    if l == c then Tables(t.son, t.parent, Raise(t.freq, c))
    else Tables(SwapSon(t.son, c, l), SwapParent(t.son, t.parent, c, l), Raise(t.freq, l))
  }

  ghost function Above(t: Tables, c: nat): nat
    requires Climbing(t.son, t.parent, t.freq, c)
  {
    Raised(t, c).parent[LastEqual(t.freq, c)]
  }

  lemma RaisedClimbs(t: Tables, c: nat)
    requires Climbing(t.son, t.parent, t.freq, c)
    ensures var r := Raised(t, c);
      && Climbed(r.son, r.parent, r.freq, c, Above(t, c))
      && Counted(t.parent, t.freq, r.parent, r.freq, t.son[c])
  {
    var l, r := LastEqual(t.freq, c), Raised(t, c);
    EqualsSwappable(t.son, t.parent, t.freq, c, l);
    assert t.freq[l] < t.freq[l + 1];
    ClimbStep(t.son, t.parent, t.freq, c, l, r.son, r.parent);
  }

  // The tables when the climb from node c has passed the root.
  ghost function ClimbFrom(t: Tables, c: nat): (r: Tables)
    requires Climbing(t.son, t.parent, t.freq, c)
    ensures Sound(r)
    decreases TSIZE - c
  {
    var r, up := Raised(t, c), Above(t, c);
    RaisedClimbs(t, c);
    if up == 0 then r else ClimbFrom(r, up)
  }

  // The climb from a leaf counts that leaf's symbol once; the nodes above it
  // belong to no symbol.
  lemma {:induction false} ClimbCounts(t: Tables, c: nat)
    requires Climbing(t.son, t.parent, t.freq, c)
    ensures Counted(t.parent, t.freq, ClimbFrom(t, c).parent, ClimbFrom(t, c).freq, t.son[c])
    decreases TSIZE - c
  {
    hide NodeOk, ChildOk, LeafOk, Counted, Weighted, SumsBut, Sorted, LeafTotal;
    RaisedClimbs(t, c);
    var r, up := Raised(t, c), Above(t, c);
    if up != 0 {
      ClimbCounts(r, up);
      var z := ClimbFrom(r, up);
      CountedOnce(t.parent, t.freq, r.parent, r.freq, z.parent, z.freq, t.son[c], r.son[up]);
    }
  }

  // The tables after one more occurrence of symbol c, when there is room for it.
  ghost function Incremented(t: Tables, c: nat): (r: Tables)
    requires Sound(t) && t.freq[ROOT] < MAX_FREQ && c < N_CHAR
    ensures Sound(r)
  {
    StartClimb(t.son, t.parent, t.freq, c);
    ClimbFrom(t, t.parent[TSIZE + c])
  }

  lemma IncrementCounts(t: Tables, c: nat)
    requires Sound(t) && t.freq[ROOT] < MAX_FREQ && c < N_CHAR
    ensures Counted(t.parent, t.freq, Incremented(t, c).parent, Incremented(t, c).freq, TSIZE + c)
  {
    StartClimb(t.son, t.parent, t.freq, c);
    ClimbCounts(t, t.parent[TSIZE + c]);
  }

  // ----------------------------------------------------------- the rebuild

  // The leaves among the first n nodes, in order, and their frequencies halved.
  ghost function LeafSons(son: seq<nat>, n: nat): (a: seq<nat>)
    requires n <= |son| <= TSIZE
    ensures |a| == LeafTotal(son, Ones(), n)
  {
    if n == 0 then [] else LeafSons(son, n - 1) + (if son[n - 1] >= TSIZE then [son[n - 1]] else [])
  }

  ghost function LeafHalves(son: seq<nat>, freq: seq<nat>, n: nat): (b: seq<nat>)
    requires n <= |son| <= TSIZE && n <= |freq|
    ensures |b| == |LeafSons(son, n)|
  {
    if n == 0 then []
    else LeafHalves(son, freq, n - 1) + (if son[n - 1] >= TSIZE then [Half(freq[n - 1])] else [])
  }

  // The place for a node of weight x below place k: behind all that are no heavier.
  ghost function Slot(freq: seq<nat>, x: nat, k: nat): (r: nat)
    requires k <= |freq|
    ensures r <= k
  {
    if k > 0 && x < freq[k - 1] then Slot(freq, x, k - 1) else k
  }

  lemma {:induction false} SlotFound(freq: seq<nat>, x: nat, k: nat)
    requires k <= |freq| && Sorted(freq, |freq|)
    requires (k > 0 ==> freq[k - 1] <= x) && (k < |freq| ==> x < freq[k])
    ensures k == Slot(freq, x, |freq|)
  {
    SlotBelow(freq, x, k, |freq|);
  }

  lemma {:induction false} SlotBelow(freq: seq<nat>, x: nat, k: nat, n: nat)
    requires k <= n <= |freq| && Sorted(freq, |freq|)
    requires (k > 0 ==> freq[k - 1] <= x) && (k < |freq| ==> x < freq[k])
    ensures k == Slot(freq, x, n)
  {
    if k < n {
      SlotBelow(freq, x, k, n - 1);
    }
  }

  // A list of nodes: son[] and freq[] as far as they have been built.
  datatype Nodes = Nodes(son: seq<nat>, freq: seq<nat>)

  ghost predicate Growing(a: Nodes) {
    |a.son| == |a.freq| && N_CHAR <= |a.son| <= TSIZE
  }

  // Join the two lightest roots, until one tree is left.
  ghost function Grown(a: Nodes): (r: Nodes)
    requires Growing(a)
    ensures Growing(r) && |r.son| == TSIZE
    decreases TSIZE - |a.son|
  {
    if |a.son| == TSIZE then a
    else
      var i := 2 * (|a.son| - N_CHAR);
      var x := a.freq[i] + a.freq[i + 1];
      var k := Slot(a.freq, x, |a.freq|);
      Grown(Nodes(InsertAt(a.son, k, i), InsertAt(a.freq, k, x)))
  }

  lemma GrownNext(f: Forest, k: nat)
    requires Sizes(f) && |f.son| < TSIZE && |f.up| + 1 < |f.freq|
    requires k == Slot(f.freq, f.freq[|f.up|] + f.freq[|f.up| + 1], |f.freq|)
    ensures Grown(Nodes(Join(f, k).son, Join(f, k).freq)) == Grown(Nodes(f.son, f.freq))
  {
    hide InsertAt, Shift, Slot;
  }

  ghost predicate Rebuilt(t: Tables, r: Tables) {
    && Sound(t) && Sound(r)
    && r.freq[ROOT] < MAX_FREQ
    && AllHalved(t.parent, t.freq, r.parent, r.freq)
    && Nodes(r.son, r.freq[..TSIZE]) == Grown(Nodes(LeafSons(t.son, TSIZE), LeafHalves(t.son, t.freq, TSIZE)))
  }

  lemma GrownDone(a: Nodes)
    requires Growing(a) && |a.son| == TSIZE
    ensures Grown(a) == a
  {
  }

  lemma SizesOf(f: Forest, w: seq<nat>)
    requires Linked(f, w)
    ensures Sizes(f)
  {
  }

  // Joining a pair at its slot goes on with the same rebuild.
  lemma RebuildNext(f: Forest, w: seq<nat>, total: int, k: nat)
    requires Linked(f, w) && Balanced(f, total) && JoinPoint(f, k) && |f.up| + 1 < |f.freq|
    requires k == Slot(f.freq, f.freq[|f.up|] + f.freq[|f.up| + 1], |f.freq|)
    ensures var g := Join(f, k);
      && Linked(g, w) && Balanced(g, total) && Sizes(g) && |g.son| == |f.son| + 1 && |g.up| == |f.up| + 2
      && Growing(Nodes(f.son, f.freq)) && Growing(Nodes(g.son, g.freq))
      && Grown(Nodes(g.son, g.freq)) == Grown(Nodes(f.son, f.freq))
  {
    hide Placed, UpOk, SymbolOk, LeafTotal, Total, Sorted, Grown, Slot, InsertAt, Shift;
    JoinLinked(f, w, k);
    JoinBalanced(f, total, k);
    GrownNext(f, k);
  }

  lemma FinishRebuilt(t: Tables, f: Forest, total: int, r: Tables)
    requires Sound(t) && t.freq[ROOT] == MAX_FREQ
    requires Linked(f, Halved(t.parent, t.freq)) && Balanced(f, total) && 2 * total <= MAX_FREQ + N_CHAR
    requires |f.son| == TSIZE && Connected(f, r.parent, TSIZE)
    requires r.son == f.son && r.freq == f.freq + [SENTINEL]
    requires Nodes(f.son, f.freq) == Grown(Nodes(LeafSons(t.son, TSIZE), LeafHalves(t.son, t.freq, TSIZE)))
    ensures Rebuilt(t, r)
  {
    hide Linked, Balanced, Connected, NodeOk, ChildOk, LeafOk, SumsBut, Sorted, LeafTotal, LeafSons, LeafHalves;
    var w := Halved(t.parent, t.freq);
    FinishShape(f, w, r.parent);
    FinishWeighted(f, w, total, r.freq);
    FinishSymbols(f, w, r.parent, r.freq);
  }

  // The tables update() counts in: rebuilt ones if the tree was full.
  ghost predicate Refreshed(t: Tables, m: Tables) {
    && Sound(t)
    && (if t.freq[ROOT] == MAX_FREQ then Rebuilt(t, m) else m == t)
  }

  ghost predicate Updated(t: Tables, c: nat, r: Tables) {
    c < N_CHAR && exists m: Tables :: Refreshed(t, m) && r == Incremented(m, c)
  }

  lemma RefreshedUnique(t: Tables, m: Tables, n: Tables)
    requires Refreshed(t, m) && Refreshed(t, n)
    ensures m == n
  {
    if t.freq[ROOT] == MAX_FREQ {
      assert m.son == n.son && m.freq[..TSIZE] == n.freq[..TSIZE];
      ParentDetermined(m.son, m.parent, n.parent);
      assert m.freq == m.freq[..TSIZE] + [SENTINEL] && n.freq == n.freq[..TSIZE] + [SENTINEL];
    }
  }

  // There is one outcome of an update, ...
  lemma UpdatedUnique(t: Tables, c: nat, r: Tables, q: Tables)
    requires Updated(t, c, r) && Updated(t, c, q)
    ensures r == q
  {
    hide Shape, Incremented, Grown;
    var m: Tables :| Refreshed(t, m) && r == Incremented(m, c);
    var n: Tables :| Refreshed(t, n) && q == Incremented(n, c);
    RefreshedUnique(t, m, n);
  }

  // ... and it counts the symbol.
  lemma UpdatedCounts(t: Tables, c: nat, r: Tables)
    requires Updated(t, c, r)
    ensures Sound(r) && Recounted(t.parent, t.freq, r.parent, r.freq, c)
  {
    hide Shape, Counted, Incremented, Grown;
    var m: Tables :| Refreshed(t, m) && r == Incremented(m, c);
    IncrementCounts(m, c);
    if t.freq[ROOT] == MAX_FREQ {
      CountAfterHalving(t.parent, t.freq, m.parent, m.freq, r.parent, r.freq, c);
    } else {
      CountOnly(t.parent, t.freq, r.parent, r.freq, c);
    }
  }
}
