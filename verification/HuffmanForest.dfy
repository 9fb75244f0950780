/**
 Building the tree bottom-up from its leaves.

 A forest holds the first |son| nodes in frequency order.  The first |up| nodes
 already have parents, pair by pair; the others are still roots.  Both the
 construction of the first tree and the periodic rebuild repeat one step: join
 the two lightest roots under a new node and insert that node in order.
 */
module HuffmanForest {
  import opened HuffmanShape

  // leafAt[s] is the node of symbol s; up[v] is the parent of node v, for the
  // nodes that have one.
  datatype Forest = Forest(son: seq<nat>, freq: seq<nat>, leafAt: seq<nat>, up: seq<nat>)

  ghost function Total(w: seq<nat>, from: nat): (t: nat)
    requires from <= |w|
    decreases |w| - from
  {
    if from == |w| then 0 else w[from] + Total(w, from + 1)
  }

  ghost predicate Sizes(f: Forest) {
    && |f.son| == |f.freq|
    && N_CHAR <= |f.son| <= TSIZE
    && |f.leafAt| == N_CHAR
    && |f.up| == 2 * (|f.son| - N_CHAR)
  }

  // Node p is a leaf known to leafAt, or joins a pair known to up.
  ghost predicate Placed(f: Forest, p: nat)
    requires Sizes(f) && p < |f.son|
  {
    if f.son[p] >= TSIZE then
      f.son[p] < TSIZE + N_CHAR && f.leafAt[f.son[p] - TSIZE] == p
    else
      && f.son[p] + 1 < p
      && f.son[p] + 1 < |f.up|
      && f.up[f.son[p]] == p
      && f.up[f.son[p] + 1] == p
      && f.freq[p] == f.freq[f.son[p]] + f.freq[f.son[p] + 1]
  }

  ghost predicate UpOk(f: Forest, v: nat)
    requires Sizes(f) && v < |f.up|
  {
    && v < f.up[v] < |f.son|
    && (f.son[f.up[v]] == v || f.son[f.up[v]] + 1 == v)
  }

  ghost predicate SymbolOk(f: Forest, w: seq<nat>, s: nat)
    requires Sizes(f) && s < N_CHAR == |w|
  {
    f.leafAt[s] < |f.son| && f.son[f.leafAt[s]] == TSIZE + s && f.freq[f.leafAt[s]] == w[s]
  }

  ghost predicate Linked(f: Forest, w: seq<nat>) {
    && Sizes(f)
    && |w| == N_CHAR
    && (forall p: nat | p < |f.son| :: Placed(f, p))
    && (forall v: nat | v < |f.up| :: UpOk(f, v))
    && (forall s: nat | s < N_CHAR :: SymbolOk(f, w, s))
  }

  // `total` is carried both by the leaves and by the remaining roots.
  ghost predicate Balanced(f: Forest, total: int) {
    && Sizes(f)
    && Sorted(f.freq, |f.freq|)
    && f.freq[0] >= 1
    && LeafTotal(f.son, f.freq, |f.son|) == total
    && LeafTotal(f.son, seq(|f.son|, i => 1), |f.son|) == N_CHAR
    && Total(f.freq, |f.up|) == total
  }

  function InsertAt(a: seq<nat>, k: nat, x: nat): (r: seq<nat>)
    requires k <= |a|
    ensures |r| == |a| + 1
  {
    a[..k] + [x] + a[k..]
  }

  lemma Inserted(a: seq<nat>, k: nat, x: nat, p: nat)
    requires k <= |a| && p < |a|
    ensures InsertAt(a, k, x)[if p < k then p else p + 1] == a[p]
  {
  }

  // Positions from k on have moved up by one.
  function Shift(a: seq<nat>, k: nat): (r: seq<nat>)
    ensures |r| == |a|
    ensures forall i: nat | i < |a| :: r[i] == if a[i] < k then a[i] else a[i] + 1
  {
    seq(|a|, i requires 0 <= i < |a| => if a[i] < k then a[i] else a[i] + 1)
  }

  // The forest after its two lightest roots have been joined by a node at k.
  ghost function Join(f: Forest, k: nat): (f': Forest)
    requires Sizes(f) && |f.son| < TSIZE && k <= |f.son|
    ensures Sizes(f')
  {
    var i := |f.up|;
    Forest(InsertAt(f.son, k, i), InsertAt(f.freq, k, f.freq[i] + f.freq[i + 1]),
           Shift(f.leafAt, k), Shift(f.up, k) + [k, k])
  }

  // k is where the joined node belongs: after the pair, in frequency order.
  ghost predicate JoinPoint(f: Forest, k: nat) {
    && Sizes(f)
    && |f.son| < TSIZE
    && var i := |f.up|;
       && i + 2 <= k <= |f.son|
       && f.freq[k - 1] <= f.freq[i] + f.freq[i + 1]
       && (k < |f.son| ==> f.freq[i] + f.freq[i + 1] <= f.freq[k])
  }

  // The joined node itself.
  lemma JoinPlacedNew(f: Forest, k: nat)
    requires JoinPoint(f, k)
    ensures Placed(Join(f, k), k)
  {
  }

  lemma JoinPlacedLeaf(f: Forest, k: nat, p: nat)
    requires Sizes(f) && |f.up| < k <= |f.son| < TSIZE && p < |f.son| && Placed(f, p) && f.son[p] >= TSIZE
    ensures Placed(Join(f, k), if p < k then p else p + 1)
  {
    hide InsertAt;
    Inserted(f.son, k, |f.up|, p);
  }

  // A node the forest already had, now at p or p + 1.
  lemma JoinPlacedOld(f: Forest, k: nat, p: nat)
    requires Sizes(f) && |f.up| < k <= |f.son| < TSIZE && p < |f.son| && Placed(f, p)
    ensures Placed(Join(f, k), if p < k then p else p + 1)
  {
    if f.son[p] >= TSIZE {
      JoinPlacedLeaf(f, k, p);
    } else {
      JoinPlacedInner(f, k, p);
    }
  }

  lemma JoinPlacedInner(f: Forest, k: nat, p: nat)
    requires Sizes(f) && |f.up| < k <= |f.son| < TSIZE && p < |f.son| && Placed(f, p) && f.son[p] < TSIZE
    ensures Placed(Join(f, k), if p < k then p else p + 1)
  {
    hide InsertAt;
    var i, v := |f.up|, f.son[p];
    var x := f.freq[i] + f.freq[i + 1];
    Inserted(f.son, k, i, p);
    Inserted(f.freq, k, x, p);
    Inserted(f.freq, k, x, v);
    Inserted(f.freq, k, x, v + 1);
  }

  lemma JoinSymbol(f: Forest, w: seq<nat>, k: nat, s: nat)
    requires Linked(f, w) && JoinPoint(f, k) && s < N_CHAR
    ensures SymbolOk(Join(f, k), w, s)
  {
    assert SymbolOk(f, w, s);
  }

  lemma JoinUp(f: Forest, w: seq<nat>, k: nat, v: nat)
    requires Linked(f, w) && JoinPoint(f, k) && v < |f.up| + 2
    ensures UpOk(Join(f, k), v)
  {
    if v < |f.up| {
      assert UpOk(f, v);
    }
  }

  lemma JoinLinked(f: Forest, w: seq<nat>, k: nat)
    requires Linked(f, w) && JoinPoint(f, k)
    ensures Linked(Join(f, k), w)
  {
    var g := Join(f, k);
    forall p: nat | p < |g.son| ensures Placed(g, p) {
      if p == k {
        JoinPlacedNew(f, k);
      } else {
        var q := if p < k then p else p - 1;
        assert Placed(f, q);
        JoinPlacedOld(f, k, q);
      }
    }
    forall v: nat | v < |g.up| ensures UpOk(g, v) { JoinUp(f, w, k, v); }
    forall s: nat | s < N_CHAR ensures SymbolOk(g, w, s) { JoinSymbol(f, w, k, s); }
  }

  lemma {:induction false} LeafTotalInsert(son: seq<nat>, w: seq<nat>, k: nat, s: nat, x: nat)
    requires |son| == |w| && k <= |son| && s < TSIZE
    ensures LeafTotal(InsertAt(son, k, s), InsertAt(w, k, x), |son| + 1) == LeafTotal(son, w, |son|)
  {
    var son', w' := InsertAt(son, k, s), InsertAt(w, k, x);
    var n := |son|;
    if k == n {
      LeafTotalPrefix(son, w, son', w', n);
    } else {
      LeafTotalInsert(son[..n - 1], w[..n - 1], k, s, x);
      LeafTotalPrefix(InsertAt(son[..n - 1], k, s), InsertAt(w[..n - 1], k, x), son', w', n);
      LeafTotalPrefix(son[..n - 1], w[..n - 1], son, w, n - 1);
    }
  }

  lemma {:induction false} TotalInsert(w: seq<nat>, from: nat, k: nat, x: nat)
    requires from <= k <= |w|
    ensures Total(InsertAt(w, k, x), from) == Total(w, from) + x
    decreases |w| - from
  {
    var w' := InsertAt(w, k, x);
    if from == k {
      TotalTail(w', from + 1, w, from);
    } else {
      TotalInsert(w, from + 1, k, x);
    }
  }

  lemma {:induction false} TotalTail(a: seq<nat>, i: nat, b: seq<nat>, j: nat)
    requires i <= |a| && j <= |b| && a[i..] == b[j..]
    ensures Total(a, i) == Total(b, j)
    decreases |a| - i
  {
    assert |a| - i == |b| - j;
    if i < |a| {
      assert a[i] == a[i..][0] == b[j..][0] == b[j];
      assert a[i + 1..] == a[i..][1..] == b[j..][1..] == b[j + 1..];
      TotalTail(a, i + 1, b, j + 1);
    }
  }

  lemma JoinSorted(freq: seq<nat>, k: nat, x: nat)
    requires 0 < k <= |freq| && Sorted(freq, |freq|)
    requires freq[k - 1] <= x && (k < |freq| ==> x <= freq[k])
    ensures Sorted(InsertAt(freq, k, x), |freq| + 1)
  {
  }

  lemma JoinTotal(f: Forest, k: nat)
    requires JoinPoint(f, k)
    ensures Total(Join(f, k).freq, |f.up| + 2) == Total(f.freq, |f.up|)
  {
    var freq, freq' := f.freq, Join(f, k).freq;
    var i := |f.up|;
    TotalInsert(freq, i, k, freq[i] + freq[i + 1]);
    assert Total(freq', i) == freq'[i] + (freq'[i + 1] + Total(freq', i + 2));
  }

  lemma JoinBalanced(f: Forest, total: int, k: nat)
    requires Balanced(f, total) && JoinPoint(f, k)
    ensures Balanced(Join(f, k), total)
  {
    hide LeafTotal, Total, InsertAt, Shift;
    JoinLeaves(f, k);
    JoinOrder(f, k);
    JoinTotal(f, k);
  }

  lemma JoinLeaves(f: Forest, k: nat)
    requires JoinPoint(f, k)
    ensures var g := Join(f, k);
      && LeafTotal(g.son, g.freq, |g.son|) == LeafTotal(f.son, f.freq, |f.son|)
      && LeafTotal(g.son, seq(|g.son|, i => 1), |g.son|) == LeafTotal(f.son, seq(|f.son|, i => 1), |f.son|)
  {
    hide LeafTotal, InsertAt, Shift;
    var i := |f.up|;
    var ones := seq(|f.son|, i => 1);
    LeafTotalInsert(f.son, f.freq, k, i, f.freq[i] + f.freq[i + 1]);
    LeafTotalInsert(f.son, ones, k, i, 1);
    OnesInsert(|f.son|, k);
  }

  lemma OnesInsert(n: nat, k: nat)
    requires k <= n
    ensures InsertAt(seq(n, i => 1), k, 1) == seq(n + 1, i => 1)
  {
  }

  lemma JoinOrder(f: Forest, k: nat)
    requires JoinPoint(f, k) && Sorted(f.freq, |f.freq|) && f.freq[0] >= 1
    ensures var g := Join(f, k); Sorted(g.freq, |g.freq|) && g.freq[0] >= 1
  {
    hide Sorted, InsertAt;
    JoinSorted(f.freq, k, f.freq[|f.up|] + f.freq[|f.up| + 1]);
    Inserted(f.freq, k, f.freq[|f.up|] + f.freq[|f.up| + 1], 0);
  }

  // The sum of the two lightest roots is within the total.
  lemma PairWithinTotal(f: Forest, total: int)
    requires Balanced(f, total) && |f.son| < TSIZE
    ensures f.freq[|f.up|] + f.freq[|f.up| + 1] <= total
  {
    assert Total(f.freq, |f.up|) == f.freq[|f.up|] + (f.freq[|f.up| + 1] + Total(f.freq, |f.up| + 2));
  }

  // The forest init_decompress starts from: one tree per symbol, each of weight 1.
  ghost function FirstForest(): Forest {
    Forest(seq(N_CHAR, i => i + TSIZE), seq(N_CHAR, i => 1), seq(N_CHAR, i => i), [])
  }

  lemma FirstForestOk()
    ensures Linked(FirstForest(), seq(N_CHAR, i => 1)) && Balanced(FirstForest(), N_CHAR)
  {
    var f := FirstForest();
    LeavesOnly(f.son, f.freq, N_CHAR);
    assert f.freq[..N_CHAR] == f.freq;
    OnesTotal(N_CHAR);
  }

  lemma FirstConnected(parent: seq<nat>)
    requires |parent| == TSIZE + N_CHAR && parent[ROOT] == 0
    requires forall v: nat | TSIZE <= v < TSIZE + N_CHAR :: parent[v] == v - TSIZE
    ensures Connected(FirstForest(), parent, N_CHAR)
  {
  }

  // While every node added so far joined the pair just before the next one, the
  // next joined node also belongs at the end.
  ghost predicate InStep(f: Forest) {
    && Sizes(f)
    && if |f.up| == 0 then f.freq[|f.freq| - 1] == 1 else f.son[|f.son| - 1] == |f.up| - 2
  }

  lemma JoinAtEnd(f: Forest, w: seq<nat>, total: int)
    requires Linked(f, w) && Balanced(f, total) && InStep(f) && |f.son| < TSIZE
    ensures JoinPoint(f, |f.son|) && InStep(Join(f, |f.son|))
  {
    if |f.up| > 0 {
      assert Placed(f, |f.son| - 1);
    }
  }

  // ------------------------------------------------ connecting the parents

  // parent[] is right about the children of the first n nodes.
  ghost predicate Connected(f: Forest, parent: seq<nat>, n: nat) {
    && Sizes(f)
    && |parent| == TSIZE + N_CHAR
    && parent[ROOT] == 0
    && n <= |f.son|
    && forall p: nat | p < n ::
         && f.son[p] < |parent|
         && parent[f.son[p]] == p
         && (f.son[p] < TSIZE ==> parent[f.son[p] + 1] == p)
  }

  lemma ConnectStep(f: Forest, w: seq<nat>, parent: seq<nat>, n: nat)
    requires Linked(f, w) && Connected(f, parent, n) && n < |f.son|
    ensures f.son[n] < TSIZE + N_CHAR
    ensures Connected(f, Adopt(parent, f.son[n], n), n + 1)
  {
    assert Placed(f, n);
    forall p: nat | p < n
      ensures f.son[p] != f.son[n]
      ensures f.son[p] < TSIZE ==> f.son[p] + 1 != f.son[n]
      ensures f.son[n] < TSIZE ==> f.son[p] != f.son[n] + 1
    {
      assert Placed(f, p);
    }
  }

  // Joining at the end leaves the nodes already connected as they were.
  lemma ConnectJoined(f: Forest, w: seq<nat>, parent: seq<nat>)
    requires Linked(f, w) && Connected(f, parent, |f.son|) && JoinPoint(f, |f.son|)
    requires Linked(Join(f, |f.son|), w)
    ensures Connected(Join(f, |f.son|), Adopt(parent, |f.up|, |f.son|), |f.son| + 1)
  {
    var g := Join(f, |f.son|);
    assert Connected(g, parent, |f.son|);
    assert g.son[|f.son|] == |f.up|;
    ConnectStep(g, w, parent, |f.son|);
  }

  lemma FinishShape(f: Forest, w: seq<nat>, parent: seq<nat>)
    requires Linked(f, w) && Connected(f, parent, TSIZE) && |f.son| == TSIZE
    ensures Shape(f.son, parent)
  {
    forall p: nat | p < TSIZE ensures NodeOk(f.son, parent, p) {
      assert Placed(f, p);
    }
    forall v: nat | v < ROOT ensures ChildOk(f.son, parent, v) {
      assert UpOk(f, v) && NodeOk(f.son, parent, f.up[v]);
    }
    forall s: nat | s < N_CHAR ensures LeafOk(f.son, parent, s) {
      assert SymbolOk(f, w, s) && NodeOk(f.son, parent, f.leafAt[s]);
    }
  }

  lemma FinishWeighted(f: Forest, w: seq<nat>, total: int, freq: seq<nat>)
    requires Linked(f, w) && Balanced(f, total) && |f.son| == TSIZE
    requires freq == f.freq + [SENTINEL] && total <= MAX_FREQ
    ensures Weighted(f.son, freq) && freq[ROOT] == total
  {
    assert Weights(freq) == f.freq;
    assert Ones() == seq(TSIZE, i => 1);
    forall i: nat | i < TSIZE && f.son[i] < TSIZE ensures freq[i] == Children(f.son, freq, i) {
      assert Placed(f, i);
    }
    assert Total(f.freq, ROOT) == f.freq[ROOT] + Total(f.freq, TSIZE);
  }

  lemma FinishSymbols(f: Forest, w: seq<nat>, parent: seq<nat>, freq: seq<nat>)
    requires Linked(f, w) && Connected(f, parent, TSIZE)
    requires |freq| == TSIZE + 1 && freq[..TSIZE] == f.freq
    ensures forall s: nat | s < N_CHAR :: SymbolFreq(parent, freq, s) == w[s]
  {
    forall s: nat | s < N_CHAR ensures SymbolFreq(parent, freq, s) == w[s] {
      assert SymbolOk(f, w, s);
    }
  }

  // ------------------------------------------------- gathering the leaves

  function Half(x: nat): nat {
    (x + 1) / 2
  }

  // Every frequency halved.
  ghost predicate AllHalved(parent: seq<nat>, freq: seq<nat>, parent': seq<nat>, freq': seq<nat>) {
    && SameLengths(parent, freq) && SameLengths(parent', freq')
    && forall s: nat | s < N_CHAR :: SymbolFreq(parent', freq', s) == Half(SymbolFreq(parent, freq, s))
  }

  lemma CountAfterHalving(p0: seq<nat>, f0: seq<nat>, p1: seq<nat>, f1: seq<nat>, p2: seq<nat>, f2: seq<nat>, c: nat)
    requires SameLengths(p0, f0) && f0[ROOT] == MAX_FREQ && AllHalved(p0, f0, p1, f1)
    requires Counted(p1, f1, p2, f2, TSIZE + c)
    ensures Recounted(p0, f0, p2, f2, c)
  {
  }

  lemma CountOnly(p0: seq<nat>, f0: seq<nat>, p1: seq<nat>, f1: seq<nat>, c: nat)
    requires SameLengths(p0, f0) && f0[ROOT] != MAX_FREQ && Counted(p0, f0, p1, f1, TSIZE + c)
    ensures Recounted(p0, f0, p1, f1, c)
  {
  }

  // One more occurrence of symbol c, every frequency halved first if the tree was full.
  ghost predicate Recounted(parent: seq<nat>, freq: seq<nat>, parent': seq<nat>, freq': seq<nat>, c: nat) {
    && SameLengths(parent, freq) && SameLengths(parent', freq')
    && forall s: nat | s < N_CHAR ::
         SymbolFreq(parent', freq', s)
           == (if freq[ROOT] == MAX_FREQ then Half(SymbolFreq(parent, freq, s)) else SymbolFreq(parent, freq, s))
              + (if s == c then 1 else 0)
  }

  lemma HalfUp(x: nat)
    ensures x <= 2 * Half(x) <= x + 1
  {
  }

  // What halving and counting come to.
  lemma HalvedUp(parent: seq<nat>, freq: seq<nat>, parent': seq<nat>, freq': seq<nat>)
    requires AllHalved(parent, freq, parent', freq')
    ensures forall s: nat | s < N_CHAR ::
      SymbolFreq(parent, freq, s) <= 2 * SymbolFreq(parent', freq', s) <= SymbolFreq(parent, freq, s) + 1
  {
    hide Half;
    forall s: nat | s < N_CHAR
      ensures SymbolFreq(parent, freq, s) <= 2 * SymbolFreq(parent', freq', s) <= SymbolFreq(parent, freq, s) + 1
    {
      HalfUp(SymbolFreq(parent, freq, s));
    }
  }

  lemma RecountedUp(parent: seq<nat>, freq: seq<nat>, parent': seq<nat>, freq': seq<nat>, c: nat)
    requires Recounted(parent, freq, parent', freq', c)
    ensures forall s: nat | s < N_CHAR ::
      var f, g := SymbolFreq(parent, freq, s), SymbolFreq(parent', freq', s) - if s == c then 1 else 0;
      if freq[ROOT] == 0x8000 then f <= 2 * g <= f + 1 else g == f
  {
    hide Half;
    forall s: nat | s < N_CHAR
      ensures var f, g := SymbolFreq(parent, freq, s), SymbolFreq(parent', freq', s) - if s == c then 1 else 0;
        if freq[ROOT] == 0x8000 then f <= 2 * g <= f + 1 else g == f
    {
      HalfUp(SymbolFreq(parent, freq, s));
    }
  }

  // rebuild's first pass: a lists the leaves among the first i old nodes, in
  // order, and leafAt locates them by symbol.
  ghost predicate GatheredLeaves(son: seq<nat>, parent: seq<nat>, i: nat, a: seq<nat>, leafAt: seq<nat>) {
    && Shape(son, parent)
    && i <= TSIZE
    && |leafAt| == N_CHAR
    && |a| == LeafTotal(son, Ones(), i)
    && (forall p: nat | p < |a| ::
          TSIZE <= a[p] < TSIZE + N_CHAR && leafAt[a[p] - TSIZE] == p && parent[a[p]] < i)
    && (forall v: nat | TSIZE <= v < TSIZE + N_CHAR && parent[v] < i ::
          leafAt[v - TSIZE] < |a| && a[leafAt[v - TSIZE]] == v)
  }

  // b holds the halved frequencies of the leaves in a.
  ghost predicate GatheredFreqs(son: seq<nat>, parent: seq<nat>, freq: seq<nat>, i: nat, a: seq<nat>, b: seq<nat>) {
    && |son| == TSIZE
    && SameLengths(parent, freq)
    && i <= TSIZE
    && |a| == |b|
    && (forall p: nat | p < |a| ::
          TSIZE <= a[p] < |parent| && parent[a[p]] < i && b[p] == Half(freq[parent[a[p]]]))
    && Sorted(b, |b|)
    && 2 * LeafTotal(a, b, |a|) <= LeafTotal(son, Weights(freq), i) + |a|
  }

  ghost predicate Gathered(son: seq<nat>, parent: seq<nat>, freq: seq<nat>, i: nat,
                           a: seq<nat>, b: seq<nat>, leafAt: seq<nat>) {
    GatheredLeaves(son, parent, i, a, leafAt) && GatheredFreqs(son, parent, freq, i, a, b)
  }

  lemma GatherLeafLink(son: seq<nat>, parent: seq<nat>, i: nat, a: seq<nat>, leafAt: seq<nat>)
    requires GatheredLeaves(son, parent, i, a, leafAt)
    requires i < TSIZE && TSIZE <= son[i]
    ensures NodeOk(son, parent, i)
    ensures GatheredLeaves(son, parent, i + 1, a + [son[i]], leafAt[son[i] - TSIZE := |a|])
  {
    assert NodeOk(son, parent, i);
    var leafAt' := leafAt[son[i] - TSIZE := |a|];
    forall v: nat | TSIZE <= v < TSIZE + N_CHAR && parent[v] < i + 1
      ensures leafAt'[v - TSIZE] < |a| + 1 && (a + [son[i]])[leafAt'[v - TSIZE]] == v
    {
      assert LeafOk(son, parent, v - TSIZE);
    }
  }

  lemma GatherLeafFreq(son: seq<nat>, parent: seq<nat>, freq: seq<nat>, i: nat, a: seq<nat>, b: seq<nat>)
    requires GatheredFreqs(son, parent, freq, i, a, b)
    requires i < TSIZE && TSIZE <= son[i] < |parent| && parent[son[i]] == i && Sorted(freq, TSIZE)
    ensures GatheredFreqs(son, parent, freq, i + 1, a + [son[i]], b + [Half(freq[i])])
  {
    LeafTotalPrefix(a, b, a + [son[i]], b + [Half(freq[i])], |a|);
  }

  lemma GatherLeaf(son: seq<nat>, parent: seq<nat>, freq: seq<nat>, i: nat, a: seq<nat>, b: seq<nat>, leafAt: seq<nat>)
    requires Gathered(son, parent, freq, i, a, b, leafAt)
    requires i < TSIZE && TSIZE <= son[i] && Sorted(freq, TSIZE)
    ensures NodeOk(son, parent, i)
    ensures Gathered(son, parent, freq, i + 1, a + [son[i]], b + [Half(freq[i])], leafAt[son[i] - TSIZE := |a|])
  {
    GatherLeafLink(son, parent, i, a, leafAt);
    GatherLeafFreq(son, parent, freq, i, a, b);
  }

  lemma GatherSkip(son: seq<nat>, parent: seq<nat>, freq: seq<nat>, i: nat, a: seq<nat>, b: seq<nat>, leafAt: seq<nat>)
    requires Gathered(son, parent, freq, i, a, b, leafAt)
    requires i < TSIZE && son[i] < TSIZE
    ensures Gathered(son, parent, freq, i + 1, a, b, leafAt)
  {
    forall v: nat | TSIZE <= v < TSIZE + N_CHAR && parent[v] < i + 1
      ensures leafAt[v - TSIZE] < |a| && a[leafAt[v - TSIZE]] == v
    {
      assert LeafOk(son, parent, v - TSIZE);
    }
  }

  lemma {:induction false} LeavesOnly(son: seq<nat>, w: seq<nat>, n: nat)
    requires n <= |son| && n <= |w| && forall p: nat | p < n :: son[p] >= TSIZE
    ensures LeafTotal(son, w, n) == Total(w[..n], 0)
  {
    if n == 0 {
    } else {
      LeavesOnly(son, w, n - 1);
      TotalSnoc(w[..n - 1], 0, w[n - 1]);
      assert w[..n] == w[..n - 1] + [w[n - 1]];
    }
  }

  lemma {:induction false} TotalSnoc(w: seq<nat>, from: nat, x: nat)
    requires from <= |w|
    ensures Total(w + [x], from) == Total(w, from) + x
    decreases |w| - from
  {
    if from < |w| {
      TotalSnoc(w, from + 1, x);
    } else {
      assert Total(w + [x], from + 1) == 0;
    }
  }

  lemma {:induction false} OnesTotal(n: nat)
    ensures Total(seq(n, i => 1), 0) == n
  {
    if n == 0 {
    } else {
      OnesTotal(n - 1);
      TotalSnoc(seq(n - 1, i => 1), 0, 1);
      assert seq(n, i => 1) == seq(n - 1, i => 1) + [1];
    }
  }

  // The halved frequencies, by symbol.
  ghost function Halved(parent: seq<nat>, freq: seq<nat>): (w: seq<nat>)
    requires SameLengths(parent, freq)
    ensures |w| == N_CHAR
    ensures forall s: nat | s < N_CHAR :: w[s] == Half(SymbolFreq(parent, freq, s))
  {
    seq(N_CHAR, s requires 0 <= s < N_CHAR => Half(SymbolFreq(parent, freq, s)))
  }

  // The gathered leaves are a forest of N_CHAR trees, one symbol each.
  lemma GatheredForest(son: seq<nat>, parent: seq<nat>, freq: seq<nat>, a: seq<nat>, b: seq<nat>, leafAt: seq<nat>)
    requires Gathered(son, parent, freq, TSIZE, a, b, leafAt) && Weighted(son, freq)
    ensures Linked(Forest(a, b, leafAt, []), Halved(parent, freq))
    ensures Balanced(Forest(a, b, leafAt, []), LeafTotal(a, b, |a|))
    ensures 2 * LeafTotal(a, b, |a|) <= freq[ROOT] + N_CHAR
  {
    var f := Forest(a, b, leafAt, []);
    forall p: nat | p < |a| ensures Placed(f, p) {
      assert TSIZE <= a[p];
    }
    forall s: nat | s < N_CHAR ensures SymbolOk(f, Halved(parent, freq), s) {
      assert LeafOk(son, parent, s);
    }
    LeavesOnly(a, b, |a|);
    assert b[..|a|] == b;
    var ones := seq(|a|, i => 1);
    LeavesOnly(a, ones, |a|);
    assert ones[..|a|] == ones;
    OnesTotal(|a|);
  }
}
