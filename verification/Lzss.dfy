/**
 The LZSS layer of the Teledisk decompressor.

 A compressed file is a list of tokens.  Expanding them appends to a history that
 starts out as one ring buffer full of spaces: a literal adds its byte, a copy
 adds bytes that were produced `distance` bytes earlier, possibly its own.
 */
module Lzss {
  import opened Arithmetic
  import opened BitReader
  import opened Bytes

  const SBSIZE := 4096

  datatype Token = Literal(byte: Byte) | Copy(distance: nat, length: nat)

  // The symbol that stands for a literal, or for the length of a copy.
  function Symbol(t: Token): nat {
    match t
    case Literal(b) => b
    case Copy(_, length) => length + 253
  }

  // The tokens the format can express.
  predicate Wellformed(t: Token) {
    match t
    case Literal(_) => true
    case Copy(distance, length) => 1 <= distance <= SBSIZE && 3 <= length <= 60
  }

  predicate AllWellformed(tokens: seq<Token>) {
    forall t | t in tokens :: Wellformed(t)
  }

  function Blank(): (h: seq<Byte>)
    ensures |h| == SBSIZE
  {
    seq(SBSIZE, i => 32)
  }

  function CopyRun(history: seq<Byte>, distance: nat, length: nat): (h: seq<Byte>)
    requires 1 <= distance <= |history|
    ensures |h| == |history| + length && history <= h
    decreases length
  {
    if length == 0 then history
    else CopyRun(history + [history[|history| - distance]], distance, length - 1)
  }

  // The history after one more token.
  function Append(history: seq<Byte>, t: Token): (h: seq<Byte>)
    requires SBSIZE <= |history| && Wellformed(t)
    ensures history <= h
  {
    match t
    case Literal(b) => history + [b]
    case Copy(distance, length) => CopyRun(history, distance, length)
  }

  // The history all the tokens produce.
  function Expand(tokens: seq<Token>): (h: seq<Byte>)
    requires AllWellformed(tokens)
    ensures SBSIZE <= |h|
  {
    if tokens == [] then Blank()
    else Append(Expand(tokens[..|tokens| - 1]), tokens[|tokens| - 1])
  }

  lemma ExpandNext(tokens: seq<Token>, t: Token)
    requires AllWellformed(tokens) && Wellformed(t)
    ensures AllWellformed(tokens + [t])
    ensures Expand(tokens + [t]) == Append(Expand(tokens), t)
  {
  }

  lemma {:induction false} ExpandGrows(tokens: seq<Token>, k: nat)
    requires k <= |tokens| && AllWellformed(tokens)
    ensures Expand(tokens[..k]) <= Expand(tokens)
  {
    if k < |tokens| {
      var front := tokens[..|tokens| - 1];
      ExpandGrows(front, k);
      assert front[..k] == tokens[..k];
    } else {
      assert tokens[..k] == tokens;
    }
  }

  lemma {:induction false} ExpandBound(tokens: seq<Token>)
    requires AllWellformed(tokens)
    ensures |Expand(tokens)| <= SBSIZE + 60 * |tokens|
  {
    if tokens != [] {
      var n := |tokens| - 1;
      ExpandBound(tokens[..n]);
      assert Wellformed(tokens[n]);
    }
  }

  // Every byte of a copy equals the byte `distance` before it: what overlapping
  // copies repeat.
  lemma {:induction false} CopyRunRepeats(history: seq<Byte>, distance: nat, length: nat, i: nat)
    requires 1 <= distance <= |history| && |history| <= i < |history| + length
    ensures var h := CopyRun(history, distance, length); h[i] == h[i - distance]
    decreases length
  {
    var next := history + [history[|history| - distance]];
    if i == |history| {
      assert next <= CopyRun(next, distance, length - 1);
      assert CopyRun(next, distance, length - 1)[i] == next[i];
    } else {
      CopyRunRepeats(next, distance, length - 1, i);
    }
  }

  // --------------------------------------------------------- the ring buffer

  // The ring index d places before r.
  function Back(r: nat, d: nat): (i: nat)
    requires r < SBSIZE && d <= SBSIZE
    ensures i == (r - d) % SBSIZE
  {
    if d <= r then r - d else r + SBSIZE - d
  }

  // The ring holds the last SBSIZE bytes of the history; r is where the next
  // byte goes.
  ghost predicate Ring(ring: seq<Byte>, r: nat, history: seq<Byte>) {
    && SBSIZE <= |ring| && SBSIZE <= |history| && r < SBSIZE
    && forall d: nat | 1 <= d <= SBSIZE :: ring[Back(r, d)] == history[|history| - d]
  }

  lemma RingStart(ring: seq<Byte>, r: nat)
    requires SBSIZE <= |ring| && r < SBSIZE && forall i: nat | i < SBSIZE :: ring[i] == 32
    ensures Ring(ring, r, Blank())
  {
  }

  lemma RingHasRoom(ring: seq<Byte>, r: nat, history: seq<Byte>)
    requires Ring(ring, r, history)
    ensures r < SBSIZE <= |history|
  {
  }

  lemma RingPush(ring: seq<Byte>, r: nat, history: seq<Byte>, b: Byte)
    requires Ring(ring, r, history)
    ensures Ring(ring[r := b], (r + 1) % SBSIZE, history + [b])
  {
    var ring', r', h' := ring[r := b], (r + 1) % SBSIZE, history + [b];
    forall d: nat | 1 <= d <= SBSIZE ensures ring'[Back(r', d)] == h'[|h'| - d] {
      if d == 1 {
        assert Back(r', 1) == r;
      } else {
        assert Back(r', d) == Back(r, d - 1) != r;
        assert ring[Back(r, d - 1)] == history[|history| - (d - 1)];
      }
    }
  }

  // The byte of a copy to come next, and where the one after it is.
  lemma NextCopied(ring: seq<Byte>, r: nat, history: seq<Byte>, d: nat, k: nat, i: nat)
    requires Ring(ring, r, history) && 1 <= d <= SBSIZE && (k + i) % SBSIZE == Back(r, d)
    ensures |ring| >= SBSIZE && r < SBSIZE <= |history| && ring[(k + i) % SBSIZE] == history[|history| - d]
    ensures (k + 1 + i) % SBSIZE == Back((r + 1) % SBSIZE, d)
  {
    hide Back;
    Onward(k + i);
    BackOnward(r, d);
  }

  lemma Onward(x: nat)
    ensures (x + 1) % SBSIZE == if x % SBSIZE + 1 < SBSIZE then x % SBSIZE + 1 else 0
  {
    var q, j := x / SBSIZE, x % SBSIZE;
    if j + 1 < SBSIZE {
      DivMod(q, j + 1, SBSIZE);
    } else {
      DivMod(q + 1, 0, SBSIZE);
    }
  }

  lemma BackOnward(r: nat, d: nat)
    requires r < SBSIZE && 1 <= d <= SBSIZE
    ensures Back((r + 1) % SBSIZE, d) == if Back(r, d) + 1 < SBSIZE then Back(r, d) + 1 else 0
  {
  }

  lemma CopyRunNext(history: seq<Byte>, distance: nat, length: nat)
    requires 1 <= distance <= |history| && length > 0
    ensures CopyRun(history, distance, length)
         == CopyRun(history + [history[|history| - distance]], distance, length - 1)
  {
  }

  // ------------------------------------------------------ position codewords

  // d_code: the upper six bits of a position, by first byte.
  function DCode(i: nat): (u: nat)
    requires i < 256
    ensures u < 64
  {
    if i < 32 then 0
    else if i < 80 then 1 + (i - 32) / 16
    else if i < 144 then 4 + (i - 80) / 8
    else if i < 192 then 12 + (i - 144) / 4
    else if i < 240 then 24 + (i - 192) / 2
    else 48 + (i - 240)
  }

  // d_len: how many more bits follow the first byte, plus one, by its upper half.
  function DLen(h: nat): (n: nat)
    requires h < 16
    ensures 2 <= n <= 7
  {
    [2, 2, 3, 3, 3, 4, 4, 4, 4, 5, 5, 5, 6, 6, 6, 7][h]
  }

  // The codeword of a position: a prefix for its upper six bits, of three to
  // eight bits, followed by its lower six bits as they are.
  function PrefixLength(u: nat): (n: nat)
    ensures 3 <= n <= 8
  {
    if u < 1 then 3 else if u < 4 then 4 else if u < 12 then 5
    else if u < 24 then 6 else if u < 48 then 7 else 8
  }

  function Prefix(u: nat): nat {
    if u < 1 then u else if u < 4 then u + 1 else if u < 12 then u + 6
    else if u < 24 then u + 24 else if u < 48 then u + 72 else u + 192
  }

  function PositionLength(position: nat): nat {
    PrefixLength(position / 64) + 6
  }

  function PositionWord(position: nat): nat {
    Prefix(position / 64) * 64 + position % 64
  }

  // The codewords in the order of their positions are those of a canonical code: the next
  // one is the number after it, with zeros behind where it is longer.
  lemma PositionsInOrder(p: nat)
    ensures PositionWord(0) == 0 && PositionLength(0) == 9
    ensures p < 4095 ==>
      && PositionLength(p) <= PositionLength(p + 1) <= PositionLength(p) + 1
      && PositionWord(p + 1) == (PositionWord(p) + 1) * if PositionLength(p + 1) == PositionLength(p) then 1 else 2
  {
    if p < 4095 {
      PrefixesInOrder(p / 64);
    }
  }

  lemma PrefixesInOrder(u: nat)
    ensures u < 63 ==>
      && PrefixLength(u) <= PrefixLength(u + 1) <= PrefixLength(u) + 1
      && Prefix(u + 1) == (Prefix(u) + 1) * if PrefixLength(u + 1) == PrefixLength(u) then 1 else 2
  {
  }

  // 64 positions have codewords of 9 bits, 192 of 10, 512 of 11, 768 of 12, 1536 of 13
  // and the last 1024 of 14.
  lemma PositionLengths(p: nat)
    requires p < 4096
    ensures PositionLength(p)
      == if p < 64 then 9 else if p < 256 then 10 else if p < 768 then 11 else if p < 1536 then 12
         else if p < 3072 then 13 else 14
  {
  }

  // Where the first bytes of the codewords of each length begin and end.
  lemma LengthByRange(b: nat)
    requires b < 256
    ensures DLen(b / 16)
      == if b < 32 then 2 else if b < 80 then 3 else if b < 144 then 4 else if b < 192 then 5 else if b < 240 then 6
         else 7
  {
    var h := b / 16;
    assert 16 * h <= b < 16 * h + 16;
  }

  // The prefix of the upper six bits is read off the first byte alone.
  lemma FirstByte(b: nat)
    requires b < 256
    ensures PrefixLength(DCode(b)) == DLen(b / 16) + 1
    ensures b / Pow2(7 - DLen(b / 16)) == Prefix(DCode(b))
  {
    hide DLen, Pow2;
    LengthByRange(b);
    SmallPowers();
  }

  // Conversely, the prefix gives away how long it is.
  lemma PrefixFirst(u: nat, b: nat)
    requires u < 64 && b < 256 && b / Pow2(8 - PrefixLength(u)) == Prefix(u)
    ensures DLen(b / 16) == PrefixLength(u) - 1
  {
    hide DLen, Pow2;
    LengthByRange(b);
    SmallPowers();
  }

  // The upper bits of b followed by the k bits of e.
  lemma JoinQuotient(b: nat, e: nat, k: nat)
    requires e < Pow2(k) && 1 <= k <= 6
    ensures Join(b, e, k) / 64 == b / Pow2(6 - k)
  {
    hide Pow2;
    SmallPowers();
    match k
    case 1 =>
    case 2 =>
    case 3 =>
    case 4 =>
    case 5 =>
    case 6 =>
  }

  // decode_position's arithmetic: first byte b, then the number e of the
  // remaining bits, give the position whose codeword is exactly those bits.
  lemma PositionDecoded(b: nat, e: nat)
    requires b < 256 && e < Pow2(DLen(b / 16) - 1)
    ensures var i, n := Join(b, e, DLen(b / 16) - 1), DLen(b / 16);
      var position := i % 64 + DCode(b) * 64;
      && position < 4096
      && PositionLength(position) == 8 + (n - 1)
      && PositionWord(position) == i
  {
    hide DLen, DCode, Prefix, PrefixLength, Join, Pow2;
    var n, u := DLen(b / 16), DCode(b);
    var i := Join(b, e, n - 1);
    FirstByte(b);
    JoinQuotient(b, e, n - 1);
    DivMod(u, i % 64, 64);
    assert i == i / 64 * 64 + i % 64;
  }

  // Conversely, the first byte b of a codeword gives away how long it is.
  lemma PositionFirstByte(p: nat, b: nat, e: nat)
    requires p < 4096 && b < 256 && e < Pow2(PositionLength(p) - 8)
    requires PositionWord(p) == Join(b, e, PositionLength(p) - 8)
    ensures PositionLength(p) == 7 + DLen(b / 16)
  {
    hide DLen, Prefix, PrefixLength, Join, Pow2;
    var u := p / 64;
    JoinQuotient(b, e, PrefixLength(u) - 2);
    DivMod(Prefix(u), p % 64, 64);
    PrefixFirst(u, b);
  }

  // No two positions share a codeword.
  lemma PositionWordUnique(p: nat, q: nat)
    requires p < 4096 && q < 4096
    requires PositionLength(p) == PositionLength(q) && PositionWord(p) == PositionWord(q)
    ensures p == q
  {
    assert p == (p / 64) * 64 + p % 64 && q == (q / 64) * 64 + q % 64;
  }

  lemma PrefixFits(u: nat)
    requires u < 64
    ensures Prefix(u) < Pow2(PrefixLength(u))
  {
    SmallPowers();
  }

  lemma PositionWordFits(p: nat)
    requires p < 4096
    ensures PositionLength(p) >= 9 && PositionWord(p) < Pow2(PositionLength(p))
  {
    hide Prefix, PrefixLength;
    PrefixFits(p / 64);
    PowerSum(PrefixLength(p / 64), 6);
    SmallPowers();
  }

  // No codeword of a position begins the codeword of another, whatever their lengths.
  lemma PositionPrefixFree(p: nat, q: nat, rest: nat, d: nat)
    requires p < 4096 && q < 4096 && PositionLength(q) == PositionLength(p) + d
    requires rest < Pow2(d) && PositionWord(q) == Join(PositionWord(p), rest, d)
    ensures p == q
  {
    hide PositionLength, PositionWord, DLen, Join;
    PositionWordFits(p);
    var b, e := SplitByte(PositionWord(p), PositionLength(p) - 8);
    JoinJoin(b, e, PositionLength(p) - 8, rest, d);
    PositionFirstByte(p, b, e);
    PositionFirstByte(q, b, Join(e, rest, d));
    JoinNothing(PositionWord(p), rest);
    PositionWordUnique(p, q);
  }
}
