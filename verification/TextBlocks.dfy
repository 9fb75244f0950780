/**
 With the NUL guarantee, whatever is encoded comes out in blocks of whole lines.
 */
module TextBlocks {
  import Arithmetic
  import opened Bytes
  import opened TextFormat
  import opened TextEncode

  // Complete lines, none with a NUL in it.
  predicate Lines(s: seq<Byte>) {
    0 !in s && (s == [] || Last(s) == CR)
  }

  // Complete lines, then NULs and nothing else, at least one.
  predicate GoodBlock(b: seq<Byte>) {
    |b| == BLOCK && exists n: nat :: n < BLOCK && LinesThenNuls(b, n)
  }

  predicate LinesThenNuls(b: seq<Byte>, n: nat)
    requires n <= |b|
  {
    Lines(b[..n]) && forall i: nat | n <= i < |b| :: b[i] == 0
  }

  // Good blocks, and complete lines of one that has been begun.
  predicate Blocked(body: seq<Byte>)
    decreases |body|
  {
    if |body| < BLOCK then Lines(body) else GoodBlock(body[..BLOCK]) && Blocked(body[BLOCK..])
  }

  // The block that has been begun.
  function Tail(body: seq<Byte>): (t: seq<Byte>)
    ensures |t| == |body| % BLOCK
  {
    body[|body| - |body| % BLOCK..]
  }

  lemma {:induction false} BlockedAppend(body: seq<Byte>, x: seq<Byte>)
    requires Blocked(body) && Blocked(Tail(body) + x)
    ensures Blocked(body + x)
    decreases |body|
  {
    hide GoodBlock, Lines;
    if |body| < BLOCK {
      assert Tail(body) == body;
    } else {
      assert Tail(body[BLOCK..]) == Tail(body);
      BlockedAppend(body[BLOCK..], x);
      assert (body + x)[..BLOCK] == body[..BLOCK] && (body + x)[BLOCK..] == body[BLOCK..] + x;
    }
  }

  lemma {:induction false} TailLines(body: seq<Byte>)
    requires Blocked(body)
    ensures Lines(Tail(body))
    decreases |body|
  {
    hide GoodBlock, Lines;
    if |body| < BLOCK {
      assert Tail(body) == body;
    } else {
      TailLines(body[BLOCK..]);
      assert Tail(body[BLOCK..]) == Tail(body);
    }
  }

  // One whole block, and what follows.
  lemma BlockThen(b: seq<Byte>, rest: seq<Byte>)
    requires GoodBlock(b) && Blocked(rest)
    ensures Blocked(b + rest)
  {
  }

  lemma PaddedIsGood(t: seq<Byte>)
    requires Lines(t) && |t| < BLOCK
    ensures GoodBlock(t + Zeros(BLOCK - |t|))
  {
    var b := t + Zeros(BLOCK - |t|);
    assert b[..|t|] == t;
    assert LinesThenNuls(b, |t|);
  }

  lemma CutIsGood(line: seq<Byte>)
    requires Lines(line) && |line| > 1023
    ensures GoodBlock(line[..1022] + [CR] + [0]) && Lines(line[1022..])
  {
    var b := line[..1022] + [CR] + [0];
    assert b[..1023] == line[..1022] + [CR];
    assert LinesThenNuls(b, 1023);
  }

  // The first block of an over-long line, and the blocks of the rest.
  lemma ChoppedOnce(line: seq<Byte>)
    requires |line| > 1023
    ensures var rest := Chopped(line[1022..], true);
      Chopped(line, true) == (line[..1022] + [CR] + [0] + rest.0, rest.1)
  {
  }

  lemma {:induction false} ChoppedBlocked(line: seq<Byte>)
    requires Lines(line)
    ensures Blocked(Chopped(line, true).0 + Chopped(line, true).1)
    ensures |Chopped(line, true).0| % BLOCK == 0
    decreases |line|
  {
    hide GoodBlock, Lines, Chopped;
    if |line| > 1023 {
      hide Blocked;
      CutIsGood(line);
      ChoppedOnce(line);
      ChoppedBlocked(line[1022..]);
      var block, rest := line[..1022] + [CR] + [0], Chopped(line[1022..], true);
      BlockThen(block, rest.0 + rest.1);
      Associative(block, rest.0, rest.1);
      OneMore(|rest.0|);
    } else {
      NotChopped(line);
      assert [] + line == line;
    }
  }

  lemma NotChopped(line: seq<Byte>)
    requires |line| <= 1023
    ensures Chopped(line, true) == ([], line)
  {
  }

  lemma Associative(a: seq<Byte>, b: seq<Byte>, c: seq<Byte>)
    ensures a + b + c == a + (b + c)
  {
  }

  lemma OneMore(n: nat)
    requires n % BLOCK == 0
    ensures (BLOCK + n) % BLOCK == 0
  {
  }

  // ----------------------------------------------------------------- the run

  // The header, then blocks; the line being built has no NUL.
  predicate InBlocks(e: Encoding) {
    && |e.out| >= BLOCK && e.out[..BLOCK] == Zeros(BLOCK) && Blocked(e.out[BLOCK..])
    && e.address == |e.out| % BLOCK && 0 !in e.line.acc
  }

  lemma {:induction false} IndentHasNoNul(column: nat, dle: bool)
    ensures 0 !in Indent(column, dle)
    decreases column
  {
    if dle && column >= WIDE {
      IndentHasNoNul(column - WIDE, dle);
    }
  }

  lemma CharacterHasNoNul(l: Line, c: Byte, dle: bool)
    requires 0 !in l.acc
    ensures 0 !in Character(l, c, dle).acc
  {
    hide Indent;
    IndentHasNoNul(l.column, dle);
  }

  // What is written for a line after the lines t of a block that has been begun: NULs
  // up to the next block, whole blocks, and the rest of it.
  function Pad(t: nat, line: seq<Byte>): seq<Byte>
    requires t < BLOCK
  {
    if t + |line| > 1023 then Zeros(BLOCK - t) else []
  }

  function Pieces(t: nat, line: seq<Byte>): (seq<Byte>, seq<Byte>)
    requires t < BLOCK
  {
    if t == 0 || Pad(t, line) != [] then Chopped(line, true) else ([], line)
  }

  lemma LineBlocked(t: seq<Byte>, line: seq<Byte>)
    requires Lines(t) && Lines(line) && line != [] && |t| < BLOCK
    ensures Blocked(t + (Pad(|t|, line) + Pieces(|t|, line).0 + Pieces(|t|, line).1))
  {
    hide Chopped, GoodBlock, Blocked, Lines;
    var chopped := Chopped(line, true);
    ChoppedBlocked(line);
    if |t| + |line| > 1023 {
      AfterPadding(t, chopped.0, chopped.1);
    } else if |t| == 0 {
      Unpadded(t, chopped.0, chopped.1);
      Unpadded([], chopped.0, chopped.1);
    } else {
      Unpadded(t, [], line);
      LinesAppend(t, line);
    }
  }

  lemma Unpadded(t: seq<Byte>, blocks: seq<Byte>, rest: seq<Byte>)
    ensures t + ([] + blocks + rest) == t + blocks + rest
    ensures [] + blocks == blocks && t + [] == t
  {
  }

  lemma AfterPadding(t: seq<Byte>, blocks: seq<Byte>, rest: seq<Byte>)
    requires Lines(t) && |t| < BLOCK && Blocked(blocks + rest)
    ensures Blocked(t + (Zeros(BLOCK - |t|) + blocks + rest))
  {
    hide GoodBlock, Blocked, Lines;
    var pad := Zeros(BLOCK - |t|);
    PaddedIsGood(t);
    BlockThen(t + pad, blocks + rest);
    assert t + (pad + blocks + rest) == (t + pad) + (blocks + rest);
  }

  lemma LinesAppend(t: seq<Byte>, line: seq<Byte>)
    requires Lines(t) && Lines(line) && line != [] && |t| + |line| < BLOCK
    ensures Blocked(t + line)
  {
    assert Last(t + line) == Last(line);
  }

  // The line starts where t ends, or at a block.
  lemma LineStarts(out: nat, t: nat, line: seq<Byte>)
    requires t == out % BLOCK && Lines(line)
    ensures var pad, pieces := Pad(t, line), Pieces(t, line);
      ((if pad == [] then t else 0) + |pieces.1|) % BLOCK == (out + |pad| + |pieces.0| + |pieces.1|) % BLOCK
  {
    hide Chopped, Lines, Blocked;
    var pad, pieces := Pad(t, line), Pieces(t, line);
    ChoppedBlocked(line);
    if pad == [] {
      Lengths(out, |pieces.0|, t, |pieces.1|);
    } else {
      ToBlock(out, t);
      Lengths(out + |pad|, |pieces.0|, 0, |pieces.1|);
    }
  }

  lemma ToBlock(out: nat, t: nat)
    requires t == out % BLOCK
    ensures (out + (BLOCK - t)) % BLOCK == 0
  {
  }

  lemma Lengths(out: nat, blocks: nat, start: nat, rest: nat)
    requires start == out % BLOCK && blocks % BLOCK == 0
    ensures (start + rest) % BLOCK == (out + blocks + rest) % BLOCK
  {
    Arithmetic.Whole(out, BLOCK);
    Arithmetic.Whole(blocks, BLOCK);
    Arithmetic.Whole(start + rest, BLOCK);
    Arithmetic.DivMod(out / BLOCK + blocks / BLOCK + (start + rest) / BLOCK, (start + rest) % BLOCK, BLOCK);
  }

  lemma WriteLineInBlocks(e: Encoding)
    requires InBlocks(e)
    ensures InBlocks(WriteLine(e, true))
  {
    hide Blocked, Lines, Chopped, WriteLine;
    var body, line := e.out[BLOCK..], e.line.acc + [CR];
    BodyTail(e.out);
    TailLines(body);
    LineIs(e.line.acc);
    LineBlocked(Tail(body), line);
    LineStarts(|e.out|, e.address, line);
    var pad, pieces := Pad(e.address, line), Pieces(e.address, line);
    BlockedAppend(body, pad + pieces.0 + pieces.1);
    Written(e.out, pad, pieces.0, pieces.1);
    WriteLineIs(e, true, pad, if pad == [] then e.address else 0, pieces, e.out + pad + pieces.0 + pieces.1);
  }

  lemma BodyTail(out: seq<Byte>)
    requires |out| >= BLOCK
    ensures |Tail(out[BLOCK..])| == |out| % BLOCK
  {
  }

  lemma Written(out: seq<Byte>, a: seq<Byte>, b: seq<Byte>, c: seq<Byte>)
    requires |out| >= BLOCK
    ensures (out + a + b + c)[..BLOCK] == out[..BLOCK] && (out + a + b + c)[BLOCK..] == out[BLOCK..] + (a + b + c)
  {
    assert out + a + b + c == out + (a + b + c);
  }

  lemma LineIs(acc: seq<Byte>)
    requires 0 !in acc
    ensures Lines(acc + [CR])
  {
  }

  lemma {:induction false} FeedInBlocks(e: Encoding, s: seq<Byte>, dle: bool)
    requires InBlocks(e)
    ensures InBlocks(Feed(e, s, dle, true))
  {
    if s != [] {
      FeedInBlocks(e, Front(s), dle);
      var before := Feed(e, Front(s), dle, true);
      if Last(s) == NL || Last(s) == CR {
        WriteLineInBlocks(before);
      } else {
        CharacterHasNoNul(before.line, Last(s), dle);
      }
    }
  }

  // Every text, over-long lines included: a header block of NULs, then whole blocks,
  // each complete lines followed by NULs, at least one.
  lemma EncodedInBlocks(s: seq<Byte>, dle: bool)
    ensures var out := Encode(s, dle, true);
      |out| % BLOCK == 0 && |out| >= BLOCK && out[..BLOCK] == Zeros(BLOCK) && Blocked(out[BLOCK..])
  {
    hide Blocked, Feed, WriteLine;
    StartInBlocks();
    FeedInBlocks(Start(), s, dle);
    var e := Feed(Start(), s, dle, true);
    var last := if e.line.acc != [] then WriteLine(e, true) else e;
    if e.line.acc != [] {
      WriteLineInBlocks(e);
    }
    ClosedInBlocks(last);
    assert Encode(s, dle, true) == last.out + Zeros((BLOCK - last.address) % BLOCK);
  }

  lemma StartInBlocks()
    ensures InBlocks(Start())
  {
  }

  lemma ClosedInBlocks(e: Encoding)
    requires InBlocks(e)
    ensures var out := e.out + Zeros((BLOCK - e.address) % BLOCK);
      |out| % BLOCK == 0 && |out| >= BLOCK && out[..BLOCK] == Zeros(BLOCK) && Blocked(out[BLOCK..])
  {
    hide Blocked, Lines;
    var body, pad := e.out[BLOCK..], Zeros((BLOCK - e.address) % BLOCK);
    assert (e.out + pad)[..BLOCK] == e.out[..BLOCK] && (e.out + pad)[BLOCK..] == body + pad;
    if e.address == 0 {
      assert body + pad == body;
    } else {
      BodyTail(e.out);
      ToBlock(|e.out|, e.address);
      TailPadded(body);
    }
  }

  lemma TailPadded(body: seq<Byte>)
    requires Blocked(body) && Tail(body) != []
    ensures Blocked(body + Zeros(BLOCK - |Tail(body)|))
  {
    hide Blocked, Lines, GoodBlock;
    var t := Tail(body);
    var pad := Zeros(BLOCK - |t|);
    TailLines(body);
    PaddedIsGood(t);
    NoneBegun();
    BlockThen(t + pad, []);
    assert t + pad + [] == t + pad;
    BlockedAppend(body, pad);
  }

  lemma NoneBegun()
    ensures Blocked([])
  {
  }

  // With the guarantee or without it, the blocks are whole.
  lemma {:induction false} ChoppedWhole(line: seq<Byte>, nul: bool)
    ensures |Chopped(line, nul).0| % 1024 == 0
    decreases |line|
  {
    if |line| > PerBlock(nul) {
      ChoppedWhole(line[PerBlock(nul) - 1..], nul);
    }
  }

  lemma {:induction false} FeedWhole(s: seq<Byte>, dle: bool, nul: bool)
    ensures var e := Feed(Start(), s, dle, nul); e.address < 1024 && e.address == |e.out| % 1024
  {
    if s != [] {
      FeedWhole(Front(s), dle, nul);
      var before := Feed(Start(), Front(s), dle, nul);
      if Last(s) == NL || Last(s) == CR {
        LineWhole(before, nul);
      }
    }
  }

  lemma LineWhole(e: Encoding, nul: bool)
    requires e.address < 1024 && e.address == |e.out| % 1024
    ensures var r := WriteLine(e, nul); r.address < 1024 && r.address == |r.out| % 1024
  {
    hide Chopped;
    var line := e.line.acc + [CR];
    ChoppedWhole(line, nul);
    ToBlock(|e.out|, e.address);
    var pad := if e.address + |line| > PerBlock(nul) then Zeros(BLOCK - e.address) else [];
    var start := if pad == [] then e.address else 0;
    var chopped := if start == 0 then Chopped(line, nul) else ([], line);
    WriteLineIs(e, nul, pad, start, chopped, e.out + pad + chopped.0 + chopped.1);
    Lengths(|e.out| + |pad|, |chopped.0|, start, |chopped.1|);
  }

  lemma EncodedWhole(s: seq<Byte>, dle: bool, nul: bool)
    ensures |Encode(s, dle, nul)| % 1024 == 0
  {
    hide Feed, WriteLine;
    FeedWhole(s, dle, nul);
    var e := Feed(Start(), s, dle, nul);
    LineWhole(e, nul);
    var last := if e.line.acc != [] then WriteLine(e, nul) else e;
    Rounded(|last.out|, last.address);
  }

  lemma Rounded(n: nat, address: nat)
    requires address == n % 1024
    ensures (n + (1024 - address) % 1024) % 1024 == 0
  {
    if address > 0 {
      ToBlock(n, address);
    }
  }

  // So every block after the header is good.
  lemma {:induction false} BlockedEach(body: seq<Byte>, k: nat)
    requires Blocked(body) && (k + 1) * BLOCK <= |body|
    ensures GoodBlock(body[k * BLOCK..(k + 1) * BLOCK])
    decreases k
  {
    if k > 0 {
      BlockedEach(body[BLOCK..], k - 1);
      assert body[BLOCK..][(k - 1) * BLOCK..k * BLOCK] == body[k * BLOCK..(k + 1) * BLOCK];
    }
  }
}
