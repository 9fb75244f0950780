/**
 The Teledisk decompressor: Huffman codes from a bit stream drive an LZSS state
 machine that hands out one byte per call.
 */
module Teledisk {
  import opened AdaptiveHuffman
  import opened BitReader
  import opened Bytes
  import opened HuffmanCode
  import opened HuffmanForest
  import opened HuffmanShape
  import opened HuffmanUpdate
  import opened Lzss
  import opened TokenStream

  // What decoding one token comes to.
  datatype Fetched = HandedOut(value: Byte) | Begun | End

  class Decompressor {
    const tree: HuffmanTree
    const reader: Reader
    // text buffer for match strings
    const ring: array<Byte>
    // ring buffer position, match position, match length, bytes of it done
    var GBr: nat
    var GBi: nat
    var GBj: nat
    var GBk: nat
    // in the middle of a match
    var GBstate: bool

    // Everything handed out, after the initial blanks, the tokens decoded, and
    // the moments between them.
    ghost var history: seq<Byte>
    ghost var tokens: seq<Token>
    ghost var moments: seq<Moment>

    ghost predicate Separate() {
      && ring.Length == SBSIZE + LASIZE - 1
      && tree.Allocated()
      && ring as object != tree.parent && ring as object != tree.son && ring as object != tree.freq
    }

    // A match in progress copies from `distance` bytes back, and what remains of
    // it completes the expansion of the tokens.
    ghost predicate Matching(distance: nat)
      reads this
    {
      && GBk <= GBj
      && 1 <= distance <= SBSIZE <= |history|
      && GBr < SBSIZE
      && (GBk + GBi) % SBSIZE == Back(GBr, distance)
      && AllWellformed(tokens)
      && CopyRun(history, distance, GBj - GBk) == Expand(tokens)
    }

    // Everything but the match state and the run so far.
    ghost predicate Coding()
      reads this, reader, ring, tree, tree.parent, tree.son, tree.freq
    {
      Separate() && tree.Valid() && reader.Valid() && Ring(ring[..], GBr, history) && AllWellformed(tokens)
    }

    // The tree and the position as they are now.
    ghost function Here(): (m: Moment)
      requires Separate() && reader.Valid()
      reads reader, tree, tree.parent, tree.son, tree.freq
    {
      Moment(tree.State(), reader.Position())
    }

    // The tokens are what the input has been read to say, up to here.
    ghost predicate Traced()
      requires Separate() && reader.Valid()
      reads this, reader, tree, tree.parent, tree.son, tree.freq
    {
      Trace(reader.input, tokens, moments) && moments[|tokens|] == Here()
    }

    ghost predicate Valid()
      reads this, reader, ring, tree, tree.parent, tree.son, tree.freq
    {
      && Coding()
      && Traced()
      && (if GBstate then exists distance: nat :: Matching(distance) else history == Expand(tokens))
    }

    // The input is used up: its last token has been decoded and handed out.
    ghost predicate Ended()
      reads this, reader
    {
      && AllWellformed(tokens)
      && history == Expand(tokens)
      && Encodes(reader.input, tokens)
    }

    // The bits from here to q are the codeword of symbol s.
    ghost predicate Next(s: nat, q: nat)
      requires tree.Allocated() && reader.Valid()
      reads reader, tree.son
    {
      SymbolAt(tree.son[..], reader.input, reader.Position(), q, s)
    }

    // The bits from here to q are the codeword of position x.
    ghost predicate Placed(x: nat, q: nat)
      requires reader.Valid()
      reads reader
    {
      PositionAt(reader.input, reader.Position(), q, x)
    }

    // No byte of a match is left to hand out.
    ghost predicate Idle()
      reads this`GBstate, this`GBk, this`GBj
    {
      GBstate ==> GBk >= GBj
    }

    constructor (data: seq<Byte>)
      ensures Valid() && reader.input == data && reader.Position() == 0
      ensures history == Blank() && tokens == []
      ensures fresh(reader) && fresh(ring) && fresh(tree.parent) && fresh(tree.son) && fresh(tree.freq)
    {
      hide Shape, Weighted, Buffered, FirstTree, Ring;
      tree := new HuffmanTree();
      reader := new Reader(data);
      ring := new Byte[SBSIZE + LASIZE - 1](i => 32);
      GBr, GBi, GBj, GBk, GBstate := SBSIZE - LASIZE, 0, 0, 0, false;
      history, tokens := Blank(), [];
      new;
      RingStart(ring[..], GBr);
      moments := [Here()];
    }

    // The next symbol; None when the input ends inside its codeword.
    method DecodeChar() returns (r: Option<nat>)
      requires Separate() && tree.Valid() && reader.Valid()
      modifies reader, tree.parent, tree.son, tree.freq
      ensures tree.Valid() && reader.Valid()
      ensures r.Some? ==>
        && r.value < N_CHAR
        && SymbolAt(old(tree.son[..]), reader.input, old(reader.Position()), reader.Position(), r.value)
        && Updated(old(tree.State()), r.value, tree.State())
      ensures r.None? ==>
        forall q: nat, s: nat :: !SymbolAt(old(tree.son[..]), reader.input, old(reader.Position()), q, s)
    {
      hide Shape, Weighted, Buffered, Walk, Bit, Bits, Recounted, Updated;
      ghost var p, t, son, parent := reader.Position(), tree.State(), tree.son[..], tree.parent[..];
      ghost var bits: seq<nat> := [];
      WalkNothing(son, reader.input, p);
      var c: nat := ROOT;
      while true
        invariant reader.Valid() && p <= reader.Position()
        invariant bits == Bits(reader.input, p, reader.Position())
        invariant c < TSIZE && c == Walk(son, bits)
        modifies reader
        decreases c
      {
        ghost var at := c;
        c := tree.son[c];
        if c >= TSIZE {
          SpelledSymbol(son, parent, bits);
          break;
        }
        ghost var q := reader.Position();
        var bit := reader.GetBit();
        if bit.None? {
          InsideTree(son, reader.input, p);
          return None;
        }
        BitsSnoc(reader.input, p, q);
        WalkNext(son, parent, bits, bit.value);
        bits := bits + [bit.value];
        c := c + bit.value;
      }
      c := c - TSIZE;
      assert tree.State() == t;
      tree.Update(c);
      r := Some(c);
    }

    lemma WalkNothing(son: seq<nat>, input: seq<Byte>, p: nat)
      requires |son| == TSIZE && p <= 8 * |input|
      ensures Bits(input, p, p) == [] && Walk(son, []) == ROOT
    {
    }

    // The next match position; None when the input ends inside its codeword.
    method DecodePosition() returns (r: Option<nat>)
      requires reader.Valid()
      modifies reader
      ensures reader.Valid()
      ensures r.Some? ==> PositionAt(reader.input, old(reader.Position()), reader.Position(), r.value)
      ensures r.None? ==> forall q: nat, x: nat :: !PositionAt(reader.input, old(reader.Position()), q, x)
    {
      hide Buffered, Value, DCode, DLen, PositionLength, PositionWord, Bit, Pow2, BitReader.Join;
      ghost var p := reader.Position();
      var b := reader.GetUnalignedByte();
      if b.None? {
        NoByteLeft(reader.input, p);
        return None;
      }
      var i: nat := b.value;
      var c := DCode(i) * 64;
      var j := DLen(i / 16);
      ghost var n := j - 1;
      j := j - 1;
      while j != 0
        invariant 0 <= j <= n
        invariant reader.Valid() && reader.Position() == p + 8 + (n - j)
        invariant i == Value(reader.input, p, reader.Position())
      {
        ValueSnoc(reader.input, p, reader.Position());
        var bit := reader.GetBit();
        if bit.None? {
          NoBitsLeft(reader.input, p);
          return None;
        }
        i := 2 * i + bit.value;
        j := j - 1;
      }
      ValueSplit(reader.input, p, p + 8, reader.Position());
      PositionDecoded(b.value, Value(reader.input, p + 8, reader.Position()));
      r := Some(i % 64 + c);
    }

    // Hand out byte b: put it into the ring and the history.
    method Emit(b: Byte)
      requires Separate() && Ring(ring[..], GBr, history)
      modifies this`GBr, this`history, ring
      ensures Ring(ring[..], GBr, history)
      ensures history == old(history) + [b] && GBr == (old(GBr) + 1) % SBSIZE
    {
      RingPush(ring[..], GBr, history, b);
      ring[GBr] := b;
      GBr := (GBr + 1) % SBSIZE;
      history := history + [b];
    }

    // One more token has been decoded.
    ghost method Record(t: Token)
      requires Separate() && tree.Valid() && reader.Valid() && AllWellformed(tokens) && Wellformed(t)
      requires Trace(reader.input, tokens, moments) && Reads(reader.input, moments[|tokens|], t, Here())
      modifies this`tokens, this`moments
      ensures Traced() && tokens == old(tokens) + [t]
      ensures AllWellformed(old(tokens)) && AllWellformed(tokens) && Expand(tokens) == Append(old(Expand(tokens)), t)
    {
      hide HuffmanTree.Valid, Buffered, Reads, FirstTree, Expand, Append;
      ExpandNext(tokens, t);
      TraceSnoc(reader.input, tokens, moments, t, Here());
      tokens, moments := tokens + [t], moments + [Here()];
    }

    lemma MatchStarts(d: nat)
      requires Ring(ring[..], GBr, history) && AllWellformed(tokens) && 1 <= d <= SBSIZE <= |history|
      requires GBk == 0 && GBi == (GBr - d) % SBSIZE
      requires CopyRun(history, d, GBj) == Expand(tokens)
      ensures Matching(d)
    {
      hide CopyRun, Expand;
    }

    // Since the last token, symbol c has been decoded.
    ghost predicate HalfRead(c: nat)
      requires Separate() && reader.Valid()
      reads this`tokens, this`moments, reader, tree, tree.parent, tree.son, tree.freq
    {
      && Trace(reader.input, tokens, moments)
      && var m := moments[|tokens|];
         SymbolAt(m.tree.son, reader.input, m.position, reader.Position(), c) && Updated(m.tree, c, tree.State())
    }

    // No further token can be read.
    ghost predicate Stuck()
      reads this
    {
      Trace(reader.input, tokens, moments) && Exhausted(reader.input, moments[|tokens|])
    }

    // The second half of a copy token, the first of which was symbol c.
    method DecodeDistance(c: nat) returns (position: Option<nat>)
      requires Separate() && tree.Valid() && reader.Valid() && 256 <= c < N_CHAR && HalfRead(c)
      modifies reader
      ensures reader.Valid() && (position.None? ==> Stuck())
      ensures forall q: nat, x: nat :: old(Placed(x, q)) ==>
        position == Some(x) && reader.Position() == q
      ensures position.Some? ==>
        && position.value < SBSIZE
        && Trace(reader.input, tokens, moments)
        && Reads(reader.input, moments[|tokens|], Copy(position.value + 1, c - 253), Here())
    {
      hide HuffmanTree.Valid, Buffered, SymbolAt, PositionAt, Updated, Reads, FirstTree, Exhausted;
      ghost var m, q := moments[|tokens|], reader.Position();
      position := DecodePosition();
      if position.None? {
        NoPositionLeft(reader.input, m, q, c);
      } else {
        CopyRead(reader.input, m, q, c, position.value, Here());
        OnePosition(reader.input, q, reader.Position(), position.value);
      }
    }

    // Begin the match of a copy token whose symbol c has been decoded.
    method BeginMatch(c: nat) returns (ok: bool)
      requires Coding() && 256 <= c < N_CHAR && history == Expand(tokens) && HalfRead(c)
      modifies this`GBstate, this`GBi, this`GBj, this`GBk, this`tokens, this`moments, reader
      ensures ok ==> Coding() && Traced() && GBstate && GBk < GBj && exists d: nat :: Matching(d)
      ensures ok ==> history == old(history) && old(tokens) <= tokens && |tokens| == |old(tokens)| + 1
      ensures !ok ==> history == old(history) && tokens == old(tokens) && Stuck()
      ensures forall q: nat, x: nat :: old(Placed(x, q)) ==>
        ok && reader.Position() == q && GBj == c - 253 && GBk == 0 && Matching(x + 1)
    {
      hide HuffmanTree.Valid, Buffered, Ring, Expand, CopyRun, Reads, Matching, Trace, HalfRead, Stuck, Traced,
        AllWellformed, Placed;
      GBstate := true;
      assert forall q: nat, x: nat :: Placed(x, q) <==> old(Placed(x, q));
      var position := DecodeDistance(c);
      if position.None? {
        return false;
      }
      GBi := (GBr - position.value - 1) % SBSIZE;
      GBj := c - 255 + THRESHOLD;
      GBk := 0;
      RingHasRoom(ring[..], GBr, history);
      Record(Copy(position.value + 1, GBj));
      MatchStarts(position.value + 1);
      ok := true;
    }

    // Hand out one byte of the match in progress.
    method CopyByte(ghost d: nat) returns (c: Byte)
      requires Coding() && Matching(d) && GBk < GBj
      modifies this`GBk, this`GBr, this`history, ring
      ensures Coding() && Matching(d) && history == old(history) + [c]
      ensures d <= |old(history)| && c == old(history)[|old(history)| - d] && GBk == old(GBk) + 1
    {
      hide HuffmanTree.Valid, Buffered, Ring, Expand, CopyRun, Back;
      NextCopied(ring[..], GBr, history, d, GBk, GBi);
      CopyRunNext(history, d, GBj - GBk);
      c := ring[(GBk + GBi) % SBSIZE];
      GBk := GBk + 1;
      Emit(c);
    }

    // Hand out the byte of a literal, whose symbol has just been decoded.
    method PutLiteral(c: Byte)
      requires Coding() && history == Expand(tokens) && Trace(reader.input, tokens, moments)
      requires Reads(reader.input, moments[|tokens|], Literal(c), Here())
      modifies this`GBr, this`history, this`tokens, this`moments, ring
      ensures Coding() && Traced() && history == Expand(tokens)
      ensures history == old(history) + [c] && tokens == old(tokens) + [Literal(c)]
    {
      hide HuffmanTree.Valid, Buffered, Ring, Expand, FirstTree, Reads;
      Emit(c);
      Record(Literal(c));
    }

    // The next token: a byte handed out, a match begun, or the end of the input.
    method Fetch() returns (r: Fetched)
      requires Valid() && !GBstate
      modifies this, reader, ring, tree.parent, tree.son, tree.freq
      ensures r.HandedOut? ==> Valid() && history == old(history) + [r.value]
      ensures r.Begun? ==> Valid() && GBstate && GBk < GBj && history == old(history)
      ensures !r.End? ==> old(tokens) <= tokens && |tokens| == |old(tokens)| + 1
      ensures r.End? ==> Ended() && history == old(history) && tokens == old(tokens)
      ensures forall q: nat, b: Byte :: old(Next(b, q)) ==> r == HandedOut(b) && reader.Position() == q
      ensures forall q: nat, s: nat, p: nat, x: nat ::
        s >= 256 && old(Next(s, q)) && PositionAt(reader.input, q, p, x) ==>
          r == Begun && reader.Position() == p && GBj == s - 253 && GBk == 0 && Matching(x + 1)
    {
      hide HuffmanTree.Valid, Buffered, Ring, SymbolAt, PositionAt, Updated, Expand, CopyRun, FirstTree, Exhausted,
        Encodes, Matching;
      ghost var m := Here();
      var c := DecodeChar();
      if c.Some? {
        OneSymbol(m.tree.son, reader.input, m.position, reader.Position(), c.value);
      }
      if c.None? {
        NoSymbolLeft(reader.input, m);
        AllRead(reader.input, tokens, moments);
        return End;
      }
      if c.value < 256 {
        PutLiteral(c.value);
        return HandedOut(c.value);
      }
      assert forall p: nat, x: nat :: PositionAt(reader.input, reader.Position(), p, x) <==> Placed(x, p);
      var ok := BeginMatch(c.value);
      if !ok {
        AllRead(reader.input, tokens, moments);
        return End;
      }
      return Begun;
    }

    lemma OneDistance(d: nat)
      requires Matching(d)
      ensures forall e: nat :: Matching(e) ==> e == d
    {
    }

    lemma MatchDone(d: nat)
      requires Matching(d) && GBk >= GBj
      ensures AllWellformed(tokens) && history == Expand(tokens)
    {
      hide Expand;
    }

    // get_byte(): the next byte of the expansion; None when the input ends first.
    // A token is decoded only when everything before it has been handed out.
    method GetByte() returns (r: Option<Byte>)
      requires Valid()
      modifies this, reader, ring, tree.parent, tree.son, tree.freq
      ensures r.Some? ==> Valid() && history == old(history) + [r.value]
      ensures r.Some? && tokens != old(tokens) ==>
        old(tokens) <= tokens && |tokens| == |old(tokens)| + 1 && old(history) == Expand(old(tokens))
      ensures r.None? ==> Ended() && history == old(history) && tokens == old(tokens)
      // between matches, a symbol below 256 is itself the byte, ...
      ensures forall q: nat, b: Byte :: old(Idle() && Next(b, q)) ==> r == Some(b) && reader.Position() == q
      // ... and any other, with position x, begins s - 253 bytes from x + 1 back
      ensures forall q: nat, s: nat, p: nat, x: nat ::
        s >= 256 && old(Idle() && Next(s, q)) && PositionAt(reader.input, q, p, x) ==>
          && x < |old(history)| && r == Some(old(history)[|old(history)| - 1 - x])
          && reader.Position() == p && GBj - GBk == s - 254
    {
      hide HuffmanTree.Valid, Buffered, Ring, Trace, Expand, CopyRun, Encodes, PositionAt, Matching, Next;
      while true
        invariant Valid() && history == old(history) && tokens == old(tokens)
        invariant forall q: nat, s: nat :: Next(s, q) <==> old(Next(s, q))
        invariant old(Idle()) ==> Idle()
        decreases GBstate
      {
        if !GBstate {
          var next := Fetch();
          match next
          case HandedOut(c) => return Some(c);
          case End => return None;
          case Begun =>
        }
        if GBk < GBj {
          ghost var d: nat :| Matching(d);
          OneDistance(d);
          var c := CopyByte(d);
          return Some(c);
        }
        ghost var done: nat :| Matching(done);
        MatchDone(done);
        GBstate := false;
      }
    }

    // n bytes in a row: the next n of the expansion, or all that are left of it.
    method GetBytes(n: nat) returns (out: seq<Byte>, ok: bool)
      requires Valid()
      modifies this, reader, ring, tree.parent, tree.son, tree.freq
      ensures history == old(history) + out
      ensures if ok then Valid() && |out| == n else Ended() && |out| < n
    {
      hide Shape, Weighted, Buffered, Ring, Expand, CopyRun, Traced, Matching, Encodes;
      out, ok := [], true;
      while |out| < n
        invariant Valid() && ok && |out| <= n
        invariant history == old(history) + out
      {
        var b := GetByte();
        if b.None? {
          return out, false;
        }
        out := out + [b.value];
      }
    }

    // What has been handed out is the beginning of the expansion of the tokens
    // with which the input begins; between matches it is all of that expansion.
    lemma OutputIsExpansion()
      requires Valid()
      ensures Begins(reader.input, tokens) && history <= Expand(tokens)
      ensures !GBstate ==> history == Expand(tokens)
    {
    }

    // However the calls were made, what has been handed out is the beginning of
    // the expansion of all the tokens of the input.
    lemma OutputBeginsAll(all: seq<Token>)
      requires Valid() && AllWellformed(all) && Encodes(reader.input, all)
      ensures history <= Expand(all)
    {
      OutputIsExpansion();
      EncodesAll(reader.input, all, tokens);
      ExpandGrows(all, |tokens|);
      assert all[..|tokens|] == tokens;
    }

    // At the end it is the whole expansion of the only tokens the input encodes.
    lemma OutputIsAll(all: seq<Token>)
      requires Ended() && Encodes(reader.input, all)
      ensures tokens == all && history == Expand(all)
    {
      EncodesUnique(reader.input, tokens, all);
    }

    // Two runs over the same input never disagree.
    lemma RunsAgree(other: Decompressor)
      requires Valid() && other.Valid() && reader.input == other.reader.input
      requires |history| <= |other.history|
      ensures history <= other.history
    {
      hide Traced, Matching, Coding, Begins, Expand;
      OutputIsExpansion();
      other.OutputIsExpansion();
      WellformedSoFar();
      other.WellformedSoFar();
      ReadingsAgree(reader.input, tokens, history, other.tokens, other.history);
    }

    lemma WellformedSoFar()
      requires Valid()
      ensures AllWellformed(tokens)
    {
    }

    // An input of so many bytes cannot be expanded without end.
    lemma OutputBounded()
      requires Valid()
      ensures |history| <= SBSIZE + 480 * |reader.input|
    {
      hide Traced, Matching, Coding, Begins, Expand;
      OutputIsExpansion();
      WellformedSoFar();
      FewTokens(reader.input, tokens);
      ExpandBound(tokens);
    }
  }

  // The whole of a compressed input, handed out byte by byte: the expansion of the
  // tokens it encodes, of which there is one list for every input.
  method Decompress(data: seq<Byte>) returns (out: seq<Byte>)
    ensures exists tokens: seq<Token> ::
      AllWellformed(tokens) && Encodes(data, tokens) && Blank() + out == Expand(tokens)
  {
    hide Shape, Weighted, Buffered, Ring, Trace, Encodes, Expand, CopyRun;
    var d := new Decompressor(data);
    var ok;
    out, ok := d.GetBytes(480 * |data| + 1);
    if ok {
      d.OutputBounded();
      assert false;
    }
    assert AllWellformed(d.tokens) && Encodes(data, d.tokens) && Blank() + out == Expand(d.tokens);
  }
}
