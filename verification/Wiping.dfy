/**
 Clearing the bytes of a volume that belong to no file.
 */
module Wiping {
  import opened Arithmetic
  import opened Bytes
  import opened DirectoryFormat
  import opened Extents

  predicate InContent(e: Entry, p: nat) {
    e.first * 512 <= p < e.first * 512 + SizeOf(e)
  }

  predicate InFile(E: seq<Entry>, p: nat) {
    exists i: nat :: i < |E| && InContent(E[i], p)
  }

  // W is V with every byte of the blocks from low up to (not including) end that is
  // in no file zero.
  predicate Wiped(E: seq<Entry>, V: seq<Byte>, W: seq<Byte>, low: nat, end: nat) {
    && |W| == |V|
    && forall p: nat | p < |V| :: W[p] == if low * 512 <= p < end * 512 && !InFile(E, p) then 0 else V[p]
  }

  lemma WipedLength(E: seq<Entry>, V: seq<Byte>, W: seq<Byte>, low: nat, end: nat)
    requires Wiped(E, V, W, low, end)
    ensures |W| == |V|
  {
  }

  lemma WipedNothing(E: seq<Entry>, V: seq<Byte>, low: nat)
    ensures Wiped(E, V, V, low, low)
  {
  }

  // The rest of the last block of a file holds no byte of any file.
  lemma TailOutside(E: seq<Entry>, low: nat, eov: nat, j: nat, p: nat)
    requires Layout(E, low, eov) && j < |E|
    requires E[j].first * 512 + SizeOf(E[j]) <= p < E[j].last * 512
    ensures !InFile(E, p)
  {
  }

  lemma WipeBlock(E: seq<Entry>, V: seq<Byte>, W: seq<Byte>, low: nat, eov: nat, j: nat, block: nat)
    requires Layout(E, low, eov) && j <= |E| && Holds(V, eov)
    requires Wiped(E, V, W, low, block) && PrevLast(E, j, low) <= block < NextFirst(E, j, eov) <= eov && low <= block
    ensures Wiped(E, V, Overlay(W, block * 512, Zeros(512)), low, block + 1)
  {
  }

  // What the last block of a file has left.
  function TailSize(e: Entry): int {
    (512 - SizeOf(e) % 512) % 512
  }

  lemma WipeFile(E: seq<Entry>, V: seq<Byte>, W: seq<Byte>, low: nat, eov: nat, j: nat)
    requires Layout(E, low, eov) && j < |E| && Holds(V, eov)
    requires Wiped(E, V, W, low, E[j].first)
    ensures Sized(E[j]) && E[j].last <= eov && 0 <= TailSize(E[j]) < 512
    ensures E[j].first * 512 + SizeOf(E[j]) + TailSize(E[j]) == E[j].last * 512 <= |W|
    ensures Wiped(E, V, Overlay(W, E[j].first * 512 + SizeOf(E[j]), Zeros(TailSize(E[j]))), low, E[j].last)
  {
    hide Overlay, Wiped, Layout, InFile, SizeOf, TailSize;
    WipedLength(E, V, W, low, E[j].first);
    LayoutEntry(E, low, eov, j);
    TailFits(E[j]);
    var at, end := E[j].first * 512 + SizeOf(E[j]), E[j].last * 512;
    forall p: nat | at <= p < end ensures !InFile(E, p) {
      TailOutside(E, low, eov, j, p);
    }
    forall p: nat | E[j].first * 512 <= p < at ensures InFile(E, p) {
      InsideFile(E, j, p);
    }
    WipeStretch(E, V, W, low, E[j].first, at, E[j].last);
  }

  lemma InsideFile(E: seq<Entry>, j: nat, p: nat)
    requires j < |E| && InContent(E[j], p)
    ensures InFile(E, p)
  {
  }

  lemma TailFits(e: Entry)
    requires Sized(e)
    ensures 0 <= SizeOf(e) && 0 <= TailSize(e) < 512
    ensures e.first * 512 + SizeOf(e) + TailSize(e) == e.last * 512
  {
    var n := e.last - e.first;
    if n == 0 {
      DivMod(1, 0, 512);
    } else if e.lastByte == 512 {
      DivMod(n, 0, 512);
    } else {
      DivMod(n - 1, e.lastByte, 512);
    }
  }

  // Up to `at` the blocks from first on are all in files, and none of the rest is.
  lemma WipeStretch(E: seq<Entry>, V: seq<Byte>, W: seq<Byte>, low: nat, first: nat, at: nat, last: nat)
    requires Wiped(E, V, W, low, first) && low <= first && first * 512 <= at <= last * 512 <= |V|
    requires forall p: nat | first * 512 <= p < at :: InFile(E, p)
    requires forall p: nat | at <= p < last * 512 :: !InFile(E, p)
    ensures Wiped(E, V, Overlay(W, at, Zeros(last * 512 - at)), low, last)
  {
    hide Overlay, InFile;
  }

  // Wiping changes no file.
  lemma WipedKeeps(E: seq<Entry>, V: seq<Byte>, W: seq<Byte>, low: nat, eov: nat)
    requires Layout(E, low, eov) && Holds(V, eov) && Wiped(E, V, W, low, eov)
    ensures Contents(E, W, low, eov) == Contents(E, V, low, eov)
  {
    forall i: nat | i < |E| ensures Content(E[i], W) == Content(E[i], V) {
      ContentKept(E, V, W, low, eov, i);
    }
  }

  lemma ContentKept(E: seq<Entry>, V: seq<Byte>, W: seq<Byte>, low: nat, eov: nat, i: nat)
    requires Layout(E, low, eov) && Holds(V, eov) && Wiped(E, V, W, low, eov) && i < |E|
    ensures Sized(E[i]) && E[i].last <= eov && Content(E[i], W) == Content(E[i], V)
  {
    hide Layout, InFile, SizeOf;
    LayoutEntry(E, low, eov, i);
    TailFits(E[i]);
    var c, d, base := Content(E[i], W), Content(E[i], V), E[i].first * 512;
    forall k: nat | k < |c| ensures c[k] == d[k] {
      InsideFile(E, i, base + k);
      assert c[k] == W[base + k] && d[k] == V[base + k];
    }
  }
}
