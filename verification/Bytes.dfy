/**
 Byte strings and overwriting part of one.
 */
module Bytes {

  type Byte = x: int | 0 <= x < 256

  datatype Option<+T> = None | Some(value: T)

  // s with the bytes from pos on replaced by d.
  function Overlay(s: seq<Byte>, pos: nat, d: seq<Byte>): (r: seq<Byte>)
    requires pos + |d| <= |s|
    ensures |r| == |s|
    ensures forall i: nat | i < |s| :: r[i] == if pos <= i < pos + |d| then d[i - pos] else s[i]
  {
    s[..pos] + d + s[pos + |d|..]
  }

  function Zeros(n: nat): (z: seq<Byte>)
    ensures |z| == n
    ensures forall i: nat | i < n :: z[i] == 0
  {
    seq(n, i => 0)
  }

  // memcpy()
  method Store(buffer: array<Byte>, at: nat, data: seq<Byte>)
    requires at + |data| <= buffer.Length
    modifies buffer
    ensures buffer[..] == Overlay(old(buffer[..]), at, data)
  {
    forall i: nat | i < |data| {
      buffer[at + i] := data[i];
    }
  }

  lemma OverlayNothing(s: seq<Byte>, pos: nat)
    requires pos <= |s|
    ensures Overlay(s, pos, []) == s
  {
  }

  // Two overwrites, one right after the other, are one.
  lemma OverlayAppend(s: seq<Byte>, pos: nat, d: seq<Byte>, e: seq<Byte>)
    requires pos + |d| + |e| <= |s|
    ensures Overlay(Overlay(s, pos, d), pos + |d|, e) == Overlay(s, pos, d + e)
  {
  }

  lemma OverlayPrepend(s: seq<Byte>, pos: nat, d: seq<Byte>, e: seq<Byte>)
    requires pos + |d| + |e| <= |s|
    ensures Overlay(Overlay(s, pos + |d|, e), pos, d) == Overlay(s, pos, d + e)
  {
  }

  // Overwriting a stretch with its own bytes, part of which have been replaced,
  // replaces that part.
  lemma OverlayWithin(s: seq<Byte>, at: nat, n: nat, from: nat, d: seq<Byte>)
    requires at + n <= |s| && from + |d| <= n
    ensures Overlay(s, at, Overlay(s[at..at + n], from, d)) == Overlay(s, at + from, d)
  {
  }

  lemma OverlayRead(s: seq<Byte>, pos: nat, d: seq<Byte>)
    requires pos + |d| <= |s|
    ensures Overlay(s, pos, d)[pos..pos + |d|] == d
  {
  }

  lemma OverlayElsewhere(s: seq<Byte>, pos: nat, d: seq<Byte>, from: nat, n: nat)
    requires pos + |d| <= |s| && from + n <= |s|
    requires from + n <= pos || pos + |d| <= from
    ensures Overlay(s, pos, d)[from..from + n] == s[from..from + n]
  {
  }

  lemma SliceSlice(s: seq<Byte>, at: nat, n: nat, from: nat, m: nat)
    requires at + n <= |s| && from + m <= n
    ensures s[at..at + n][from..from + m] == s[at + from..at + from + m]
  {
    var part := s[at..at + n];
    var l, r := part[from..from + m], s[at + from..at + from + m];
    forall i: nat | i < m ensures l[i] == r[i] {
      assert l[i] == part[from + i];
    }
  }

  lemma ConcatDrop(a: seq<Byte>, b: seq<Byte>, c: seq<Byte>)
    ensures a + b + c == a + (b + c) && (a + b + c)[|a|..] == b + c
  {
  }

  // Pieces put back together.
  function Joined(pieces: seq<seq<Byte>>): seq<Byte>
    decreases |pieces|
  {
    if pieces == [] then [] else pieces[0] + Joined(pieces[1..])
  }

  lemma {:induction false} JoinedSnoc(pieces: seq<seq<Byte>>, piece: seq<Byte>)
    ensures Joined(pieces + [piece]) == Joined(pieces) + piece
    decreases |pieces|
  {
    if pieces == [] {
      assert Joined([piece]) == piece + [];
    } else {
      JoinedSnoc(pieces[1..], piece);
      assert (pieces + [piece])[1..] == pieces[1..] + [piece];
      assert pieces[0] + (Joined(pieces[1..]) + piece) == pieces[0] + Joined(pieces[1..]) + piece;
    }
  }
}
