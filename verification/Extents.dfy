/**
 Files as runs of consecutive 512-byte blocks: what they hold, how they may lie on a
 volume, and what sliding them about keeps.
 */
module Extents {
  import opened Bytes
  import opened DirectoryFormat

  // ------------------------------------------------------------- block counts

  function Blocks(e: Entry): nat {
    if e.first <= e.last then e.last - e.first else 0
  }

  // get_current_size()
  function SizeOf(e: Entry): int {
    if e.first >= e.last then 0 else (e.last - e.first - 1) * 512 + e.lastByte
  }

  // get_current_extent_size()
  function ExtentSize(e: Entry): nat {
    if e.first >= e.last then 0 else (e.last - e.first) * 512
  }

  // The blocks n bytes need, and how many of them are in the last block.
  function BlocksFor(n: nat): nat {
    (n + 511) / 512
  }

  function LastByteFor(n: nat): (b: nat)
    ensures 1 <= b <= 512
  {
    if n % 512 == 0 then 512 else n % 512
  }

  predicate Sized(e: Entry) {
    e.first <= e.last && 1 <= e.lastByte <= 512
  }

  function Resized(e: Entry, size: nat): Entry {
    e.(last := e.first + BlocksFor(size), lastByte := LastByteFor(size))
  }

  // The fewest blocks that n bytes fit, and the fields of a file of that size.
  lemma BlocksEnough(n: nat)
    ensures n <= 512 * BlocksFor(n) < n + 512
  {
  }

  lemma ResizedFields(e: Entry, size: nat)
    ensures var r := Resized(e, size);
      && r == e.(last := r.last, lastByte := r.lastByte) && e.first <= r.last && 1 <= r.lastByte <= 512
      && (if size == 0 then r.last == e.first else (r.last - e.first - 1) * 512 + r.lastByte == size)
  {
  }

  lemma SizeRoundTrip(e: Entry, size: nat)
    ensures Sized(Resized(e, size)) && SizeOf(Resized(e, size)) == size
    ensures Blocks(Resized(e, size)) == BlocksFor(size)
  {
  }

  // A file has just the blocks its bytes need.
  lemma Snug(e: Entry)
    requires Sized(e)
    ensures SizeOf(e) >= 0 && BlocksFor(SizeOf(e)) == Blocks(e) && ExtentSize(e) == 512 * Blocks(e)
    ensures SizeOf(e) <= ExtentSize(e) && (ExtentSize(e) > 0 ==> ExtentSize(e) < SizeOf(e) + 512)
  {
  }

  // A length that still fits the last block changes nothing but the last byte.
  lemma SameBlocks(e: Entry, size: nat)
    requires Sized(e) && 0 < size && SizeOf(e) <= size <= ExtentSize(e)
    ensures Resized(e, size) == e.(lastByte := LastByteFor(size))
    ensures size == SizeOf(e) ==> Resized(e, size) == e
  {
  }

  lemma SameLength(e: Entry)
    requires Sized(e)
    ensures SizeOf(e) > 0 ==> Resized(e, SizeOf(e)) == e
  {
    if SizeOf(e) > 0 {
      Snug(e);
      SameBlocks(e, SizeOf(e));
    }
  }

  lemma Outgrows(size: nat, blocks: nat)
    ensures size > blocks * 512 <==> BlocksFor(size) > blocks
  {
  }

  // Just the files of up to n bytes fit these blocks.
  ghost predicate RoomFor(blocks: nat, n: nat) {
    forall size: nat :: size <= n <==> BlocksFor(size) <= blocks
  }

  lemma RoomOf(blocks: nat)
    ensures RoomFor(blocks, blocks * 512)
  {
    forall size: nat ensures size <= blocks * 512 <==> BlocksFor(size) <= blocks {
      Outgrows(size, blocks);
    }
  }

  // ------------------------------------------------------------------- layout

  // In order, disjoint, and between the label and the end of the volume.
  predicate Layout(E: seq<Entry>, low: nat, eov: nat) {
    && low <= eov
    && (forall i: nat | i < |E| :: Sized(E[i]) && low <= E[i].first && E[i].last <= eov)
    && (forall i: nat, j: nat | i < j < |E| :: E[i].last <= E[j].first)
  }

  // Blocks of the first j files.
  function Before(E: seq<Entry>, j: nat): nat
    requires j <= |E|
  {
    if j == 0 then 0 else Before(E, j - 1) + Blocks(E[j - 1])
  }

  // Blocks of the files from j on.
  function From(E: seq<Entry>, j: nat): nat
    requires j <= |E|
    decreases |E| - j
  {
    if j == |E| then 0 else Blocks(E[j]) + From(E, j + 1)
  }

  lemma {:induction false} BeforeFrom(E: seq<Entry>, j: nat)
    requires j <= |E|
    ensures Before(E, j) + From(E, j) == Before(E, |E|)
    decreases |E| - j
  {
    if j < |E| {
      BeforeFrom(E, j + 1);
    }
  }

  // The block after the file before j; the first block of file j.
  function PrevLast(E: seq<Entry>, j: nat, low: nat): nat
    requires j <= |E|
  {
    if j == 0 then low else E[j - 1].last
  }

  function NextFirst(E: seq<Entry>, j: nat, eov: nat): nat
    requires j <= |E|
  {
    if j == |E| then eov else E[j].first
  }

  lemma {:induction false} BeforeFits(E: seq<Entry>, low: nat, eov: nat, j: nat)
    requires Layout(E, low, eov) && j <= |E|
    ensures low + Before(E, j) <= PrevLast(E, j, low) <= NextFirst(E, j, eov)
  {
    if j > 0 {
      BeforeFits(E, low, eov, j - 1);
    }
  }

  lemma {:induction false} FromFits(E: seq<Entry>, low: nat, eov: nat, j: nat)
    requires Layout(E, low, eov) && j <= |E|
    ensures PrevLast(E, j, low) <= NextFirst(E, j, eov) <= eov - From(E, j)
    decreases |E| - j
  {
    if j < |E| {
      FromFits(E, low, eov, j + 1);
    }
  }

  // All blocks of all other files.
  function Others(E: seq<Entry>, i: nat): int
    requires i < |E|
  {
    Before(E, |E|) - Blocks(E[i])
  }

  // Wherever the other files lie, a file cannot reach further than the room they leave.
  lemma GapBound(E: seq<Entry>, low: nat, eov: nat, i: nat)
    requires Layout(E, low, eov) && i < |E|
    ensures E[i].last <= NextFirst(E, i + 1, eov)
    ensures NextFirst(E, i + 1, eov) - E[i].first <= eov - low - Others(E, i)
  {
    BeforeFits(E, low, eov, i);
    FromFits(E, low, eov, i + 1);
    BeforeFrom(E, i + 1);
  }

  // ------------------------------------------------------------------- sliding

  function At(e: Entry, block: nat): (r: Entry)
  {
    e.(first := block, last := block + Blocks(e))
  }

  // The first j files pushed down, those from k on pushed up, the rest where they were.
  function Slid(E: seq<Entry>, low: nat, eov: nat, j: nat, k: nat): (r: seq<Entry>)
    requires Layout(E, low, eov) && j <= k <= |E|
    ensures |r| == |E|
    ensures forall i: nat | i < |E| :: r[i] == SlidEntry(E, low, eov, j, k, i)
  {
    seq(|E|, i requires 0 <= i < |E| => SlidEntry(E, low, eov, j, k, i))
  }

  function SlidEntry(E: seq<Entry>, low: nat, eov: nat, j: nat, k: nat, i: nat): Entry
    requires Layout(E, low, eov) && i < |E|
  {
    FromFits(E, low, eov, i);
    if i < j then At(E[i], low + Before(E, i))
    else if i >= k then At(E[i], eov - From(E, i))
    else E[i]
  }

  lemma SlidBounds(E: seq<Entry>, low: nat, eov: nat, j: nat, k: nat, i: nat)
    requires Layout(E, low, eov) && j <= k <= |E| && i < |E|
    ensures var e := SlidEntry(E, low, eov, j, k, i);
      && Sized(e) && Blocks(e) == Blocks(E[i]) && SizeOf(e) == SizeOf(E[i])
      && low + Before(E, i) <= e.first && e.last + From(E, i + 1) <= eov
      && (i < j ==> e.first <= E[i].first) && (i >= k ==> e.first >= E[i].first)
  {
    hide Before, Layout;
    LayoutEntry(E, low, eov, i);
    BeforeFits(E, low, eov, i);
    FromFits(E, low, eov, i);
    FromFits(E, low, eov, i + 1);
    BeforeFrom(E, i);
    BeforeFits(E, low, eov, |E|);
  }

  lemma LayoutEntry(E: seq<Entry>, low: nat, eov: nat, i: nat)
    requires Layout(E, low, eov) && i < |E|
    ensures Sized(E[i]) && low <= E[i].first && E[i].last <= eov
  {
  }

  lemma SlidNext(E: seq<Entry>, low: nat, eov: nat, j: nat, k: nat, i: nat)
    requires Layout(E, low, eov) && j <= k <= |E| && i + 1 < |E|
    ensures SlidEntry(E, low, eov, j, k, i).last <= SlidEntry(E, low, eov, j, k, i + 1).first
  {
    SlidBounds(E, low, eov, j, k, i);
    SlidBounds(E, low, eov, j, k, i + 1);
    BeforeFits(E, low, eov, i + 1);
    FromFits(E, low, eov, i + 1);
  }

  lemma {:induction false} SlidOrder(E: seq<Entry>, low: nat, eov: nat, j: nat, k: nat, i: nat, m: nat)
    requires Layout(E, low, eov) && j <= k <= |E| && i < m < |E|
    ensures SlidEntry(E, low, eov, j, k, i).last <= SlidEntry(E, low, eov, j, k, m).first
    decreases m
  {
    hide Layout, SlidEntry;
    SlidNext(E, low, eov, j, k, m - 1);
    if i < m - 1 {
      SlidOrder(E, low, eov, j, k, i, m - 1);
      SlidBounds(E, low, eov, j, k, m - 1);
    }
  }

  // Part way through, the files are in order and disjoint as before.
  lemma SlidLayout(E: seq<Entry>, low: nat, eov: nat, j: nat, k: nat)
    requires Layout(E, low, eov) && j <= k <= |E|
    ensures Layout(Slid(E, low, eov, j, k), low, eov)
    ensures Before(Slid(E, low, eov, j, k), |E|) == Before(E, |E|)
  {
    hide SlidEntry;
    var S := Slid(E, low, eov, j, k);
    forall i: nat | i < |S| ensures Sized(S[i]) && low <= S[i].first && S[i].last <= eov {
      SlidBounds(E, low, eov, j, k, i);
    }
    forall i: nat, m: nat | i < m < |S| ensures S[i].last <= S[m].first {
      SlidOrder(E, low, eov, j, k, i, m);
    }
    SlidBefore(E, low, eov, j, k, |E|);
  }

  lemma {:induction false} SlidBefore(E: seq<Entry>, low: nat, eov: nat, j: nat, k: nat, n: nat)
    requires Layout(E, low, eov) && j <= k <= |E| && n <= |E|
    ensures Before(Slid(E, low, eov, j, k), n) == Before(E, n)
    decreases n
  {
    hide Layout, SlidEntry;
    if n > 0 {
      SlidBefore(E, low, eov, j, k, n - 1);
      SlidBounds(E, low, eov, j, k, n - 1);
    }
  }

  lemma SlidNothing(E: seq<Entry>, low: nat, eov: nat)
    requires Layout(E, low, eov)
    ensures Slid(E, low, eov, 0, |E|) == E
  {
  }

  // One more file down ...
  lemma SlidDown(E: seq<Entry>, low: nat, eov: nat, j: nat)
    requires Layout(E, low, eov) && j < |E|
    ensures var S := Slid(E, low, eov, j, |E|);
      && Slid(E, low, eov, j + 1, |E|) == S[j := At(S[j], low + Before(E, j))]
      && At(S[j], low + Before(E, j)).last == low + Before(E, j + 1)
  {
  }

  // ... or up.
  lemma SlidUp(E: seq<Entry>, low: nat, eov: nat, j: nat, k: nat)
    requires Layout(E, low, eov) && j < k <= |E|
    ensures eov >= From(E, k - 1)
    ensures var S := Slid(E, low, eov, j, k);
      && Slid(E, low, eov, j, k - 1) == S[k - 1 := At(S[k - 1], eov - From(E, k - 1))]
      && eov - From(E, k) - Blocks(S[k - 1]) == eov - From(E, k - 1)
  {
    FromFits(E, low, eov, k - 1);
    hide Layout;
  }

  // Everything pushed away from the gap after file i: the gap is all the free blocks.
  lemma GapIsAll(E: seq<Entry>, low: nat, eov: nat, i: nat)
    requires Layout(E, low, eov) && i < |E|
    ensures var S := Slid(E, low, eov, i + 1, i + 1);
      && Layout(S, low, eov)
      && S[i].last == low + Before(E, i + 1)
      && NextFirst(S, i + 1, eov) == eov - From(E, i + 1)
      && NextFirst(S, i + 1, eov) - S[i].last == eov - low - Before(E, |E|)
      && NextFirst(S, i + 1, eov) - S[i].first == eov - low - Others(E, i)
  {
    SlidLayout(E, low, eov, i + 1, i + 1);
    BeforeFrom(E, i + 1);
    hide Layout;
  }

  // ------------------------------------------------------------------ contents

  // The medium holds all blocks of the volume.
  predicate Holds(V: seq<Byte>, eov: nat) {
    eov * 512 <= |V|
  }

  function Content(e: Entry, V: seq<Byte>): (c: seq<Byte>)
    requires Sized(e) && Holds(V, e.last)
    ensures |c| == SizeOf(e)
  {
    V[e.first * 512..e.first * 512 + SizeOf(e)]
  }

  function Contents(E: seq<Entry>, V: seq<Byte>, low: nat, eov: nat): (r: seq<seq<Byte>>)
    requires Layout(E, low, eov) && Holds(V, eov)
    ensures |r| == |E|
    ensures forall i: nat | i < |E| :: r[i] == Content(E[i], V)
  {
    seq(|E|, i requires 0 <= i < |E| => Content(E[i], V))
  }

  // Moving the blocks of e to another place.
  function Moved(V: seq<Byte>, e: Entry, to: nat): (r: seq<Byte>)
    requires Sized(e) && Holds(V, e.last) && Holds(V, to + Blocks(e))
    ensures |r| == |V|
  {
    Overlay(V, to * 512, V[e.first * 512..e.last * 512])
  }

  lemma MovedContent(V: seq<Byte>, e: Entry, to: nat)
    requires Sized(e) && Holds(V, e.last) && Holds(V, to + Blocks(e))
    ensures Content(At(e, to), Moved(V, e, to)) == Content(e, V)
  {
    var d := V[e.first * 512..e.last * 512];
    var c, r := Content(At(e, to), Moved(V, e, to)), Content(e, V);
    forall i: nat | i < |r| ensures c[i] == r[i] {
      assert r[i] == d[i];
      assert c[i] == Moved(V, e, to)[to * 512 + i];
    }
  }

  // A move to where no other file lies keeps the bytes of every file.
  lemma MoveKeeps(E: seq<Entry>, V: seq<Byte>, low: nat, eov: nat, i: nat, to: nat)
    requires Layout(E, low, eov) && Holds(V, eov) && i < |E|
    requires Layout(E[i := At(E[i], to)], low, eov) && to + Blocks(E[i]) <= eov
    ensures Contents(E[i := At(E[i], to)], Moved(V, E[i], to), low, eov) == Contents(E, V, low, eov)
  {
    var F := E[i := At(E[i], to)];
    forall k: nat | k < |E| ensures Content(F[k], Moved(V, E[i], to)) == Content(E[k], V) {
      if k == i {
        MovedContent(V, E[i], to);
      } else {
        Apart(F, low, eov, i, k);
        ContentElsewhere(E[k], V, to * 512, V[E[i].first * 512..E[i].last * 512]);
      }
    }
  }

  lemma Apart(E: seq<Entry>, low: nat, eov: nat, i: nat, k: nat)
    requires Layout(E, low, eov) && i < |E| && k < |E| && i != k
    ensures E[i].last <= E[k].first || E[k].last <= E[i].first
  {
  }

  lemma ContentElsewhere(e: Entry, V: seq<Byte>, pos: nat, d: seq<Byte>)
    requires Sized(e) && Holds(V, e.last) && pos + |d| <= |V|
    requires e.last * 512 <= pos || pos + |d| <= e.first * 512
    ensures Content(e, Overlay(V, pos, d)) == Content(e, V)
  {
  }

  // Writing between the start of file i and the next file touches no other file.
  lemma OthersKept(E: seq<Entry>, V: seq<Byte>, low: nat, eov: nat, i: nat, pos: nat, d: seq<Byte>, k: nat)
    requires Layout(E, low, eov) && Holds(V, eov) && i < |E| && k < |E| && k != i
    requires E[i].first * 512 <= pos && pos + |d| <= NextFirst(E, i + 1, eov) * 512
    ensures pos + |d| <= |V| && Content(E[k], Overlay(V, pos, d)) == Content(E[k], V)
  {
  }

  // Writing below the files, or past the end of the volume, touches none of them.
  lemma OutsideKept(E: seq<Entry>, V: seq<Byte>, low: nat, eov: nat, pos: nat, d: seq<Byte>)
    requires Layout(E, low, eov) && Holds(V, eov) && pos + |d| <= |V|
    requires pos + |d| <= low * 512
    ensures Contents(E, Overlay(V, pos, d), low, eov) == Contents(E, V, low, eov)
  {
    forall k: nat | k < |E| ensures Content(E[k], Overlay(V, pos, d)) == Content(E[k], V) {
      ContentElsewhere(E[k], V, pos, d);
    }
  }
}
