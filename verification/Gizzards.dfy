/**
 The table in which equal strings are kept once, with reference counts.
 */
module Gizzards {
  import opened Arithmetic
  import opened Bytes

  const MAX_HASH_LEN := 20

  // A char is signed, and is widened to the 64 bits of the hash.
  function Widened(c: Byte): bv64 {
    if c < 128 then c as bv64 else (c as bv64) | 0xFFFF_FFFF_FFFF_FF00
  }

  // The hash after one more character.
  function Mix(retval: bv64, c: Byte): bv64 {
    (retval + (retval << 1)) ^ Widened(c)
  }

  function HashFrom(retval: bv64, s: seq<Byte>): bv64
    decreases |s|
  {
    if s == [] then retval else HashFrom(Mix(retval, s[0]), s[1..])
  }

  // hash_generate(): only the last twenty characters count.
  function HashBits(s: seq<Byte>): bv64 {
    HashFrom(0, if |s| > MAX_HASH_LEN then s[|s| - MAX_HASH_LEN..] else s)
  }

  function Hash(s: seq<Byte>): nat {
    HashBits(s) as nat
  }

  method HashGenerate(s: seq<Byte>) returns (hash: nat)
    ensures hash == Hash(s)
  {
    hide HashFrom, Widened;
    var text := if |s| > MAX_HASH_LEN then s[|s| - MAX_HASH_LEN..] else s;
    var retval: bv64 := 0;
    for j := 0 to |text|
      invariant HashFrom(retval, text[j..]) == HashFrom(0, text)
    {
      HashNext(retval, text[j..]);
      assert text[j..][1..] == text[j + 1..];
      retval := (retval + (retval << 1)) ^ Widened(text[j]);
    }
    HashDone(retval);
    hash := retval as nat;
  }

  lemma HashNext(retval: bv64, s: seq<Byte>)
    requires s != []
    ensures HashFrom(retval, s) == HashFrom(Mix(retval, s[0]), s[1..])
  {
    hide Mix;
  }

  lemma HashDone(retval: bv64)
    ensures HashFrom(retval, []) == retval
  {
  }

  // One more character: three times the hash so far, and the bits of the character.
  lemma HashMore(s: seq<Byte>, c: Byte)
    requires |s| < 20
    ensures HashBits([]) == 0
    ensures var h := HashBits(s); HashBits(s + [c]) == (h + h + h) ^ Widened(c)
  {
    hide HashFrom, Widened, Mix;
    HashDone(0);
    HashSnoc(0, s, c);
    MixIs(HashFrom(0, s), c);
  }

  // Of a longer string only the last twenty count.
  lemma HashLast(s: seq<Byte>)
    requires |s| > 20
    ensures HashBits(s) == HashBits(s[|s| - 20..])
  {
    hide HashFrom;
  }

  lemma {:induction false} HashSnoc(retval: bv64, s: seq<Byte>, c: Byte)
    ensures HashFrom(retval, s + [c]) == Mix(HashFrom(retval, s), c)
    decreases |s|
  {
    hide HashFrom, Mix;
    HashNext(retval, s + [c]);
    if s == [] {
      HashDone(retval);
      HashDone(Mix(retval, c));
      assert (s + [c])[1..] == [];
    } else {
      HashNext(retval, s);
      assert (s + [c])[1..] == s[1..] + [c];
      HashSnoc(Mix(retval, s[0]), s[1..], c);
    }
  }

  lemma MixIs(h: bv64, c: Byte)
    ensures Mix(h, c) == (h + h + h) ^ Widened(c)
  {
    hide Widened;
  }

  // The low eight bits are those of the character, and all others are its sign.
  lemma WidenedIs(c: Byte)
    ensures Widened(c) & 0xFF == c as bv64
    ensures Widened(c) >> 8 == if c < 128 then 0 else 0xFF_FFFF_FFFF_FFFF
  {
    SmallBits(c);
    SignBits(c as bv64);
  }

  lemma SmallBits(c: Byte)
    ensures c as bv64 < 256
  {
  }

  lemma SignBits(b: bv64)
    requires b < 256
    ensures (b | 0xFFFF_FFFF_FFFF_FF00) & 0xFF == b && b & 0xFF == b
    ensures (b | 0xFFFF_FFFF_FFFF_FF00) >> 8 == 0xFF_FFFF_FFFF_FFFF && b >> 8 == 0
  {
  }

  // ---------------------------------------------------------------- masking

  // x & mask
  function And(x: nat, mask: nat): nat
    decreases mask
  {
    if mask == 0 then 0 else x % 2 * (mask % 2) + 2 * And(x / 2, mask / 2)
  }

  predicate PowerOfTwo(n: nat) {
    n == 1 || (n > 1 && n % 2 == 0 && PowerOfTwo(n / 2))
  }

  // Masking with a power of two less one is taking the remainder.
  lemma {:induction false} MaskIsRemainder(x: nat, n: nat)
    requires PowerOfTwo(n)
    ensures And(x, n - 1) == x % n
  {
    if n > 1 {
      MaskIsRemainder(x / 2, n / 2);
      var m := n / 2;
      assert (n - 1) / 2 == m - 1 && (n - 1) % 2 == 1;
      HalfRemainder(x, m);
    }
  }

  lemma HalfRemainder(x: nat, m: nat)
    requires m > 0
    ensures x % 2 + 2 * (x / 2 % m) == x % (2 * m)
  {
    var q, r := x / 2 / m, x / 2 % m;
    assert x == 2 * (q * m + r) + x % 2 == q * (2 * m) + (2 * r + x % 2);
    DivMod(q, 2 * r + x % 2, 2 * m);
  }

  // ------------------------------------------------------------------ nodes

  class Node {
    const hash: nat
    const text: seq<Byte>
    var references: nat
    var next: Node?

    constructor (h: nat, t: seq<Byte>, n: Node?)
      ensures hash == h && text == t && references == 1 && next == n
    {
      hash, text, references, next := h, t, 1, n;
    }
  }

  function NodeAt(nodes: seq<Node>, i: nat): Node? {
    if i < |nodes| then nodes[i] else null
  }

  // The nodes of a list, from its head on.
  predicate Listed(head: Node?, nodes: seq<Node>)
    reads nodes`next
  {
    head == NodeAt(nodes, 0) && forall i: nat | i < |nodes| :: nodes[i].next == NodeAt(nodes, i + 1)
  }

  predicate NoRepeats(nodes: seq<Node>) {
    forall i: nat, j: nat | i < j < |nodes| :: nodes[i] != nodes[j]
  }

  // Every node of a bucket belongs there, and no node comes twice.
  predicate Sorted(buckets: seq<seq<Node>>) {
    forall b: nat | b < |buckets| :: SortedBucket(buckets[b], b, |buckets|)
  }

  predicate SortedBucket(bucket: seq<Node>, b: nat, modulus: nat)
    requires b < modulus
  {
    NoRepeats(bucket) && forall n | n in bucket :: n.hash % modulus == b
  }

  // The buckets hold just these nodes.
  predicate Holds(buckets: seq<seq<Node>>, nodes: set<Node>) {
    && (forall b: nat | b < |buckets| :: InNodes(buckets[b], nodes))
    && (forall n | n in nodes :: Bucketed(buckets, n))
  }

  predicate InNodes(bucket: seq<Node>, nodes: set<Node>) {
    forall n | n in bucket :: n in nodes
  }

  predicate Bucketed(buckets: seq<seq<Node>>, n: Node) {
    |buckets| > 0 && n in buckets[n.hash % |buckets|]
  }

  // No string is kept twice.
  predicate Unique(nodes: set<Node>) {
    && (forall n | n in nodes :: n.hash == Hash(n.text))
    && (forall n, m | n in nodes && m in nodes && n.text == m.text :: n == m)
  }

  // Every count is the number of live handles.
  predicate Counted(nodes: set<Node>, handles: multiset<Node>)
    reads nodes`references
  {
    && (forall n | n in nodes :: n.references == handles[n] > 0)
    && (forall n | n in handles :: n in nodes)
  }

  ghost predicate Chained(table: array<Node?>, buckets: seq<seq<Node>>, nodes: set<Node>)
    requires Holds(buckets, nodes) && table.Length == |buckets|
    reads table, nodes`next
  {
    forall b: nat | b < |buckets| :: HeadOf(table, buckets, nodes, b)
  }

  ghost predicate HeadOf(table: array<Node?>, buckets: seq<seq<Node>>, nodes: set<Node>, b: nat)
    requires Holds(buckets, nodes) && table.Length == |buckets| && b < |buckets|
    reads table, nodes`next
  {
    assert InNodes(buckets[b], nodes);
    Listed(table[b], buckets[b])
  }

  lemma InsertSorted(buckets: seq<seq<Node>>, nodes: set<Node>, np: Node)
    requires Sorted(buckets) && Holds(buckets, nodes) && np !in nodes && |buckets| > 0
    ensures var idx := np.hash % |buckets|;
      && Sorted(buckets[idx := [np] + buckets[idx]])
      && Holds(buckets[idx := [np] + buckets[idx]], nodes + {np})
  {
  }

  lemma RemoveSorted(buckets: seq<seq<Node>>, nodes: set<Node>, idx: nat, i: nat)
    requires Sorted(buckets) && Holds(buckets, nodes) && idx < |buckets| && i < |buckets[idx]|
    ensures var s := buckets[idx][i];
      var c := buckets[idx := Cut(buckets[idx], i)];
      Sorted(c) && Holds(c, nodes - {s})
  {
  }

  lemma AddedUnique(nodes: set<Node>, np: Node)
    requires Unique(nodes) && np.hash == Hash(np.text) && forall n | n in nodes :: n.text != np.text
    ensures Unique(nodes + {np})
  {
  }

  lemma RemovedUnique(nodes: set<Node>, s: Node)
    requires Unique(nodes)
    ensures Unique(nodes - {s})
  {
  }

  lemma AddedCounted(nodes: set<Node>, handles: multiset<Node>, np: Node)
    requires Counted(nodes, handles) && np !in nodes && np.references == 1
    ensures Counted(nodes + {np}, handles + multiset{np})
  {
  }

  lemma RemovedCounted(nodes: set<Node>, handles: multiset<Node>, s: Node)
    requires Counted(nodes, handles) && s in nodes && s.references == 1
    ensures Counted(nodes - {s}, handles - multiset{s})
  {
  }

  // ---------------------------------------------------------------- splitting

  // The old bucket of a new one.
  function Low(c: nat, modulus: nat): int {
    if c < modulus then c else c - modulus
  }

  // Just the nodes of the first idx buckets are done.
  predicate Moved(buckets: seq<seq<Node>>, nodes: set<Node>, done: set<Node>, idx: nat) {
    && idx <= |buckets|
    && (forall b: nat | b < idx :: InNodes(buckets[b], done))
    && (forall n | n in done :: n in nodes && |buckets| > 0 && n.hash % |buckets| < idx)
  }

  lemma NoneMoved(newBuckets: seq<seq<Node>>, buckets: seq<seq<Node>>)
    requires forall c: nat | c < |newBuckets| :: newBuckets[c] == []
    ensures Sorted(newBuckets) && Holds(newBuckets, {}) && forall nodes :: Moved(buckets, nodes, {}, 0)
  {
  }

  lemma AllMoved(buckets: seq<seq<Node>>, nodes: set<Node>, done: set<Node>)
    requires Holds(buckets, nodes) && Moved(buckets, nodes, done, |buckets|)
    ensures done == nodes
  {
  }

  lemma PowerDoubled(n: nat)
    requires PowerOfTwo(n)
    ensures PowerOfTwo(2 * n)
  {
  }

  lemma LowIndex(hash: nat, modulus: nat)
    requires modulus > 0
    ensures hash % (2 * modulus) < 2 * modulus && Low(hash % (2 * modulus), modulus) == hash % modulus
  {
    var q, r := hash / (2 * modulus), hash % (2 * modulus);
    Whole(hash, 2 * modulus);
    assert q * (2 * modulus) == (2 * q) * modulus;
    if r < modulus {
      DivMod(2 * q, r, modulus);
    } else {
      assert (2 * q) * modulus + r == (2 * q + 1) * modulus + (r - modulus);
      DivMod(2 * q + 1, r - modulus, modulus);
    }
  }

  lemma BucketFacts(buckets: seq<seq<Node>>, nodes: set<Node>, idx: nat)
    requires Sorted(buckets) && Holds(buckets, nodes) && idx < |buckets|
    ensures InNodes(buckets[idx], nodes) && SortedBucket(buckets[idx], idx, |buckets|)
  {
  }

  lemma Elsewhere(buckets: seq<seq<Node>>, idx: nat, b: nat, n: Node)
    requires Sorted(buckets) && idx < |buckets| && b < |buckets| && b != idx && n in buckets[idx]
    ensures n !in buckets[b]
  {
    assert SortedBucket(buckets[idx], idx, |buckets|) && SortedBucket(buckets[b], b, |buckets|);
  }

  lemma EmptyYet(buckets: seq<seq<Node>>, nodes: set<Node>, newBuckets: seq<seq<Node>>, done: set<Node>,
                 idx: nat, modulus: nat, c: nat)
    requires |buckets| == modulus > 0 && |newBuckets| == 2 * modulus && c < 2 * modulus && Low(c, modulus) >= idx
    requires Moved(buckets, nodes, done, idx) && Sorted(newBuckets) && Holds(newBuckets, done)
    ensures newBuckets[c] == []
  {
    if newBuckets[c] != [] {
      var n := newBuckets[c][0];
      BucketFacts(newBuckets, done, c);
      LowIndex(n.hash, modulus);
      assert false;
    }
  }

  // done' is done and the first i nodes of a bucket.
  predicate PartMoved(bucket: seq<Node>, i: nat, done: set<Node>, done': set<Node>) {
    && i <= |bucket| && done <= done' && InNodes(bucket[..i], done')
    && forall n | n in done' :: n in done || n in bucket[..i]
  }

  lemma PartNone(bucket: seq<Node>, done: set<Node>)
    ensures PartMoved(bucket, 0, done, done)
  {
  }

  lemma PartNext(bucket: seq<Node>, i: nat, done: set<Node>, done': set<Node>)
    requires i < |bucket| && PartMoved(bucket, i, done, done')
    ensures PartMoved(bucket, i + 1, done, done' + {bucket[i]})
  {
  }

  // The next node of the bucket has not been moved, and no later bucket has it.
  lemma NotYet(buckets: seq<seq<Node>>, nodes: set<Node>, done: set<Node>, done': set<Node>, idx: nat, i: nat)
    requires Sorted(buckets) && Holds(buckets, nodes) && idx < |buckets| && i < |buckets[idx]|
    requires Moved(buckets, nodes, done, idx) && PartMoved(buckets[idx], i, done, done')
    ensures buckets[idx][i] !in done' && buckets[idx][i] in nodes && buckets[idx][i].hash % |buckets| == idx
    ensures forall b: nat | idx < b < |buckets| :: buckets[idx][i] !in buckets[b]
    ensures forall j: nat | i < j < |buckets[idx]| :: buckets[idx][j] != buckets[idx][i]
  {
  }

  lemma BucketMoved(buckets: seq<seq<Node>>, nodes: set<Node>, done: set<Node>, done': set<Node>, idx: nat)
    requires Sorted(buckets) && Holds(buckets, nodes) && idx < |buckets| && Moved(buckets, nodes, done, idx)
    requires PartMoved(buckets[idx], |buckets[idx]|, done, done')
    ensures Moved(buckets, nodes, done', idx + 1)
  {
  }

  class Table {
    var table: array<Node?>
    var modulus: nat
    var mask: nat
    var load: nat
    ghost var buckets: seq<seq<Node>>
    ghost var nodes: set<Node>
    ghost var handles: multiset<Node>

    // The array of lists is what buckets says.
    ghost predicate Shaped()
      reads this`table, this`modulus, this`mask, this`buckets, this`nodes, table, nodes`next
    {
      && table.Length == modulus == |buckets| && mask == modulus - 1 && modulus >= 256 && PowerOfTwo(modulus)
      && Sorted(buckets) && Holds(buckets, nodes) && Chained(table, buckets, nodes)
    }

    ghost predicate Valid()
      reads this, table, nodes
    {
      Shaped() && Unique(nodes) && Counted(nodes, handles) && load == |nodes| && load * 10 <= modulus * 8
    }

    // rcstring_gizzards_initialize()
    constructor ()
      ensures Valid() && fresh(table) && table.Length == 256 && nodes == {} && handles == multiset{}
    {
      modulus, mask, load := 256, 255, 0;
      table := new Node?[256](i => null);
      buckets, nodes, handles := seq(256, i => []), {}, multiset{};
      new;
      assert PowerOfTwo(256) by {
        assert PowerOfTwo(1) && PowerOfTwo(2) && PowerOfTwo(4) && PowerOfTwo(8) && PowerOfTwo(16);
        assert PowerOfTwo(32) && PowerOfTwo(64) && PowerOfTwo(128);
      }
    }

    // The search of a bucket.
    method Find(idx: nat, hash: nat, text: seq<Byte>) returns (p: Node?)
      requires Shaped() && idx < modulus
      ensures p == null ==> forall n | n in buckets[idx] :: !(n.hash == hash && n.text == text)
      ensures p != null ==> p in buckets[idx] && p.hash == hash && p.text == text
    {
      ghost var b, i := buckets[idx], 0;
      assert HeadOf(table, buckets, nodes, idx);
      p := table[idx];
      while p != null
        invariant i <= |b| && p == NodeAt(b, i)
        invariant forall n | n in b[..i] :: !(n.hash == hash && n.text == text)
        decreases |b| - i
      {
        if p.hash == hash && p.text == text {
          return;
        }
        p := p.next;
        i := i + 1;
      }
      assert b[..i] == b;
    }

    // rcstring_gizzards_n_from_c()
    method FromC(text: seq<Byte>) returns (p: Node)
      requires Valid()
      modifies this, table, nodes
      ensures Valid() && (table == old(table) || fresh(table)) && 10 * load <= 8 * table.Length
      ensures p.text == text && handles == old(handles) + multiset{p}
      ensures nodes == old(nodes) + {p} && (p in old(nodes) || fresh(p))
    {
      hide Sorted, PowerOfTwo, Chained, Hash, Unique, Counted, And;
      var hash := HashGenerate(text);
      var idx := And(hash, mask);
      MaskIsRemainder(hash, modulus);
      var found := Find(idx, hash, text);
      if found != null {
        assert InNodes(buckets[idx], nodes);
        p := Copy(found);
      } else {
        p := Add(idx, hash, text);
      }
    }

    // rcstring_gizzards_copy()
    method Copy(s: Node) returns (p: Node)
      requires Valid() && s in nodes
      modifies this`handles, s`references
      ensures Valid() && p == s && handles == old(handles) + multiset{s}
    {
      hide Shaped, Unique;
      s.references := s.references + 1;
      handles := handles + multiset{s};
      return s;
    }

    method Add(idx: nat, hash: nat, text: seq<Byte>) returns (np: Node)
      requires Valid() && hash == Hash(text) && idx == hash % modulus
      requires forall n | n in buckets[idx] :: !(n.hash == hash && n.text == text)
      modifies this, table, nodes`next
      ensures Valid() && fresh(np) && (table == old(table) || fresh(table))
      ensures np.text == text && handles == old(handles) + multiset{np} && nodes == old(nodes) + {np}
    {
      hide Hash, Unique, Counted, Sorted, Holds, PowerOfTwo, Chained;
      np := AddToBucket(idx, hash, text);
      if load * 10 > modulus * 8 {
        Split();
      }
    }

    // A new node in its bucket, with its first handle.
    method AddToBucket(idx: nat, hash: nat, text: seq<Byte>) returns (np: Node)
      requires Valid() && hash == Hash(text) && idx == hash % modulus
      requires forall n | n in buckets[idx] :: !(n.hash == hash && n.text == text)
      modifies this`buckets, this`nodes, this`handles, this`load, table
      ensures Shaped() && Unique(nodes) && Counted(nodes, handles) && load == |nodes| == old(load) + 1
      ensures fresh(np) && np.text == text && handles == old(handles) + multiset{np} && nodes == old(nodes) + {np}
    {
      hide Table.Shaped, Hash, Unique, Counted, Sorted, Holds, PowerOfTwo, Chained;
      Absent(idx, hash, text);
      np := Insert(idx, hash, text);
      AddedUnique(old(nodes), np);
      AddedCounted(old(nodes), handles, np);
      handles := handles + multiset{np};
      load := load + 1;
    }

    lemma Absent(idx: nat, hash: nat, text: seq<Byte>)
      requires Valid() && hash == Hash(text) && idx == hash % modulus
      requires forall n | n in buckets[idx] :: !(n.hash == hash && n.text == text)
      ensures forall n | n in nodes :: n.text != text
    {
      hide Listed, Hash, Chained;
      forall n | n in nodes ensures n.text != text {
        assert Bucketed(buckets, n);
      }
    }

    // A new node at the head of its bucket.
    method Insert(idx: nat, hash: nat, text: seq<Byte>) returns (np: Node)
      requires Shaped() && idx == hash % modulus
      modifies this`buckets, this`nodes, table
      ensures fresh(np) && np.text == text && np.hash == hash && np.references == 1
      ensures nodes == old(nodes) + {np} && Shaped()
    {
      hide Sorted, Holds, PowerOfTwo;
      np := new Node(hash, text, table[idx]);
      ghost var c := buckets[idx := [np] + buckets[idx]];
      InsertSorted(buckets, nodes, np);
      assert HeadOf(table, buckets, nodes, idx);
      table[idx] := np;
      buckets := c;
      nodes := nodes + {np};
      forall b: nat | b < |c| ensures HeadOf(table, buckets, nodes, b) {
        assert old(HeadOf(table, buckets, nodes, b));
      }
    }

    // split(): twice as many buckets; the nodes stay what they are.
    method Split()
      requires Shaped()
      modifies this`table, this`modulus, this`mask, this`buckets, nodes`next
      ensures Shaped() && fresh(table) && modulus == 2 * old(modulus)
    {
      hide Sorted, Holds, Listed, PowerOfTwo;
      var newModulus := modulus * 2;
      var newTable := new Node?[newModulus];
      var newMask := newModulus - 1;
      ghost var newBuckets, done := seq(newModulus, i => []), {};
      NoneMoved(newBuckets, buckets);
      for idx := 0 to modulus
        invariant |newBuckets| == newModulus && Sorted(newBuckets) && Holds(newBuckets, done)
        invariant Moved(buckets, nodes, done, idx)
        invariant forall b: nat | idx <= b < modulus :: HeadOf(table, buckets, nodes, b)
        invariant forall c: nat | c < newModulus && Low(c, modulus) < idx :: HeadOf(newTable, newBuckets, done, c)
        modifies newTable, nodes`next
      {
        newBuckets, done := MoveBucket(idx, newTable, newMask, newBuckets, done);
      }
      AllMoved(buckets, nodes, done);
      PowerDoubled(modulus);
      table := newTable;
      modulus := newModulus;
      mask := newMask;
      buckets := newBuckets;
    }

    // The nodes of one bucket go to two.
    method MoveBucket(idx: nat, newTable: array<Node?>, newMask: nat,
                      ghost newBuckets: seq<seq<Node>>, ghost done: set<Node>)
      returns (ghost newBuckets': seq<seq<Node>>, ghost done': set<Node>)
      requires idx < modulus == |buckets| == table.Length && newTable != table
      requires newMask == 2 * modulus - 1 && PowerOfTwo(modulus)
      requires Sorted(buckets) && Holds(buckets, nodes) && Moved(buckets, nodes, done, idx)
      requires |newBuckets| == newTable.Length == 2 * modulus && Sorted(newBuckets) && Holds(newBuckets, done)
      requires forall b: nat | idx <= b < modulus :: HeadOf(table, buckets, nodes, b)
      requires forall c: nat | c < 2 * modulus && Low(c, modulus) < idx :: HeadOf(newTable, newBuckets, done, c)
      modifies newTable, nodes`next
      ensures |newBuckets'| == 2 * modulus && Sorted(newBuckets') && Holds(newBuckets', done')
      ensures Moved(buckets, nodes, done', idx + 1)
      ensures forall b: nat | idx < b < modulus :: HeadOf(table, buckets, nodes, b)
      ensures forall c: nat | c < 2 * modulus && Low(c, modulus) <= idx :: HeadOf(newTable, newBuckets', done', c)
    {
      hide Sorted, Holds, Moved, PowerOfTwo, NoRepeats, PartMoved;
      ghost var b := buckets[idx];
      BucketFacts(buckets, nodes, idx);
      assert HeadOf(table, buckets, nodes, idx);
      ClearTwo(idx, newTable, newBuckets, done);
      newBuckets', done' := newBuckets, done;
      ghost var i := 0;
      var p := table[idx];
      PartNone(b, done);
      while p != null
        invariant i <= |b| && p == NodeAt(b, i) && PartMoved(b, i, done, done')
        invariant |newBuckets'| == 2 * modulus && Sorted(newBuckets') && Holds(newBuckets', done')
        invariant forall j: nat | i <= j < |b| :: b[j].next == NodeAt(b, j + 1)
        invariant forall k: nat | idx < k < modulus :: HeadOf(table, buckets, nodes, k)
        invariant forall c: nat | c < 2 * modulus && Low(c, modulus) <= idx :: HeadOf(newTable, newBuckets', done', c)
        decreases |b| - i
      {
        var p2 := p;
        p := p.next;
        NotYet(buckets, nodes, done, done', idx, i);
        PartNext(b, i, done, done');
        label before:
        newBuckets', done' := MoveNode(p2, idx, newTable, newMask, newBuckets', done');
        forall k: nat | idx < k < modulus ensures HeadOf(table, buckets, nodes, k) {
          assert old@before(HeadOf(table, buckets, nodes, k));
        }
        i := i + 1;
      }
      BucketMoved(buckets, nodes, done, done', idx);
    }

    method ClearTwo(idx: nat, newTable: array<Node?>, ghost newBuckets: seq<seq<Node>>, ghost done: set<Node>)
      requires idx < modulus == |buckets| && newTable.Length == |newBuckets| == 2 * modulus
      requires Moved(buckets, nodes, done, idx) && Sorted(newBuckets) && Holds(newBuckets, done)
      requires forall c: nat | c < 2 * modulus && Low(c, modulus) < idx :: HeadOf(newTable, newBuckets, done, c)
      modifies newTable
      ensures forall c: nat | c < 2 * modulus && Low(c, modulus) <= idx :: HeadOf(newTable, newBuckets, done, c)
    {
      hide Sorted, Holds, Moved;
      EmptyYet(buckets, nodes, newBuckets, done, idx, modulus, idx);
      EmptyYet(buckets, nodes, newBuckets, done, idx, modulus, idx + modulus);
      newTable[idx] := null;
      newTable[idx + modulus] := null;
      forall c: nat | c < 2 * modulus && Low(c, modulus) <= idx ensures HeadOf(newTable, newBuckets, done, c) {
        if Low(c, modulus) < idx {
          assert old(HeadOf(newTable, newBuckets, done, c));
        }
      }
    }

    // One node goes to the head of its new bucket.
    method MoveNode(p2: Node, idx: nat, newTable: array<Node?>, newMask: nat,
                    ghost newBuckets: seq<seq<Node>>, ghost done: set<Node>)
      returns (ghost newBuckets': seq<seq<Node>>, ghost done': set<Node>)
      requires p2 !in done && modulus > 0 && p2.hash % modulus == idx
      requires newMask == 2 * modulus - 1 && PowerOfTwo(modulus)
      requires |newBuckets| == newTable.Length == 2 * modulus && Sorted(newBuckets) && Holds(newBuckets, done)
      requires forall c: nat | c < 2 * modulus && Low(c, modulus) <= idx :: HeadOf(newTable, newBuckets, done, c)
      modifies newTable, p2`next
      ensures |newBuckets'| == 2 * modulus && Sorted(newBuckets') && Holds(newBuckets', done')
      ensures done' == done + {p2}
      ensures forall c: nat | c < 2 * modulus && Low(c, modulus) <= idx :: HeadOf(newTable, newBuckets', done', c)
    {
      hide Sorted, PowerOfTwo;
      PowerDoubled(modulus);
      MaskIsRemainder(p2.hash, 2 * modulus);
      LowIndex(p2.hash, modulus);
      var newIdx := And(p2.hash, newMask);
      assert HeadOf(newTable, newBuckets, done, newIdx);
      InsertSorted(newBuckets, done, p2);
      newBuckets' := newBuckets[newIdx := [p2] + newBuckets[newIdx]];
      done' := done + {p2};
      p2.next := newTable[newIdx];
      newTable[newIdx] := p2;
      forall c: nat | c < 2 * modulus && Low(c, modulus) <= idx ensures HeadOf(newTable, newBuckets', done', c) {
        assert InNodes(newBuckets[c], done);
        assert old(HeadOf(newTable, newBuckets, done, c));
      }
    }

    // rcstring_gizzards_free()
    method Free(s: Node?)
      requires Valid() && (s != null ==> s in handles)
      modifies this, table, nodes
      ensures Valid() && table == old(table)
      ensures s == null ==> handles == old(handles) && nodes == old(nodes)
      ensures s != null ==> handles == old(handles) - multiset{s}
      ensures s != null ==> nodes == if s in handles then old(nodes) else old(nodes) - {s}
    {
      hide Sorted, PowerOfTwo, Hash, Holds, Chained, Unique;
      if s == null {
        return;
      }
      if s.references > 1 {
        Release(s);
        return;
      }
      Drop(s);
    }

    // The last handle is gone.
    method Drop(s: Node)
      requires Valid() && s in nodes && s.references == 1
      modifies this, table, nodes`next
      ensures Valid() && table == old(table)
      ensures handles == old(handles) - multiset{s} && nodes == old(nodes) - {s}
    {
      hide Shaped, Unique, Counted;
      RemovedUnique(nodes, s);
      RemovedCounted(nodes, handles, s);
      Remove(s);
      handles := handles - multiset{s};
      load := load - 1;
    }

    method Release(s: Node)
      requires Valid() && s in nodes && s.references > 1
      modifies this`handles, s`references
      ensures Valid() && handles == old(handles) - multiset{s}
    {
      hide Shaped, Unique;
      s.references := s.references - 1;
      handles := handles - multiset{s};
    }

    // The unlinking of a node from its bucket, where it always is.
    method Remove(s: Node)
      requires Shaped() && s in nodes
      modifies this`buckets, this`nodes, table, nodes`next
      ensures Shaped() && nodes == old(nodes) - {s}
    {
      hide Sorted, PowerOfTwo, Holds;
      var idx := And(s.hash, mask);
      MaskIsRemainder(s.hash, modulus);
      BucketOf(buckets, nodes, s);
      BucketFacts(buckets, nodes, idx);
      assert HeadOf(table, buckets, nodes, idx);
      ghost var bucket := buckets[idx];
      ghost var k: nat :| k < |bucket| && bucket[k] == s;
      var prev: Node?, spp := null, table[idx];
      ghost var i := 0;
      while spp != null
        invariant i <= k && spp == NodeAt(bucket, i)
        invariant prev == if i == 0 then null else bucket[i - 1]
        decreases k - i
      {
        if spp == s {
          RemoveSorted(buckets, nodes, idx, i);
          Unlink(idx, prev, s, i);
          return;
        }
        prev, spp := spp, spp.next;
        i := i + 1;
      }
      assert false;
    }

    method Unlink(idx: nat, prev: Node?, s: Node, ghost i: nat)
      requires Shaped() && idx < modulus && i < |buckets[idx]| && buckets[idx][i] == s
      requires prev == if i == 0 then null else buckets[idx][i - 1]
      requires var c := buckets[idx := Cut(buckets[idx], i)]; Sorted(c) && Holds(c, nodes - {s})
      modifies this`buckets, this`nodes, table, nodes`next
      ensures Shaped() && nodes == old(nodes) - {s}
    {
      hide Sorted, PowerOfTwo, Holds, Cut, Listed;
      BucketFacts(buckets, nodes, idx);
      ghost var bucket := buckets[idx];
      assert HeadOf(table, buckets, nodes, idx);
      forall b: nat | b < modulus && b != idx && prev != null ensures prev !in buckets[b] {
        Elsewhere(buckets, idx, b, prev);
      }
      Bypass(idx, prev, s, bucket, i);
      buckets := buckets[idx := Cut(bucket, i)];
      nodes := nodes - {s};
      forall b: nat | b < modulus ensures HeadOf(table, buckets, nodes, b) {
        if b != idx {
          assert old(HeadOf(table, buckets, nodes, b));
        }
      }
    }

    // Lead the list past node s, from its head or from the node before.
    method Bypass(idx: nat, prev: Node?, s: Node, ghost bucket: seq<Node>, ghost i: nat)
      requires idx < table.Length && Listed(table[idx], bucket) && NoRepeats(bucket)
      requires i < |bucket| && bucket[i] == s && prev == if i == 0 then null else bucket[i - 1]
      modifies table, (if prev == null then {} else {prev})`next
      ensures Listed(table[idx], Cut(bucket, i))
      ensures forall b: nat | b < table.Length && b != idx :: table[b] == old(table[b])
    {
      if prev == null {
        table[idx] := s.next;
      } else {
        prev.next := s.next;
      }
      CutListed(bucket, i, table[idx]);
    }

    // The list without its node i, after the one before has been led past it.
    lemma CutListed(bucket: seq<Node>, i: nat, head: Node?)
      requires i < |bucket|
      requires forall j: nat | j < |bucket| && j + 1 != i :: bucket[j].next == NodeAt(bucket, j + 1)
      requires i > 0 ==> bucket[i - 1].next == NodeAt(bucket, i + 1)
      requires head == if i == 0 then NodeAt(bucket, 1) else bucket[0]
      ensures Listed(head, Cut(bucket, i))
    {
    }

    // Two live handles are the same node exactly when their strings are equal.
    lemma EqualIsSame(p: Node, q: Node)
      requires Valid() && p in handles && q in handles
      ensures p == q <==> p.text == q.text
    {
    }
  }

  function Cut(bucket: seq<Node>, i: nat): seq<Node>
    requires i < |bucket|
  {
    bucket[..i] + bucket[i + 1..]
  }

  lemma BucketOf(buckets: seq<seq<Node>>, nodes: set<Node>, s: Node)
    requires Holds(buckets, nodes) && s in nodes
    ensures |buckets| > 0 && s in buckets[s.hash % |buckets|]
  {
  }
}
