/**
 What a compressed input says: the tokens its bits spell, one after the other.

 Each token is spelled in the code of the tree as it is at that point, and counting
 its symbol changes the tree for the next one.  So the meaning of an input is a
 chain of moments, from the first tree at bit 0 to where no token can be read.
 */
module TokenStream {
  import opened BitReader
  import opened Bytes
  import opened HuffmanShape
  import opened HuffmanCode
  import opened HuffmanUpdate
  import opened Lzss

  // The bits p..q of the input are the codeword of symbol s.
  ghost predicate SymbolAt(son: seq<nat>, input: seq<Byte>, p: nat, q: nat, s: nat) {
    |son| == TSIZE && p <= q <= 8 * |input| && Spells(son, Bits(input, p, q), s)
  }

  // The bits p..q of the input are the codeword of a position.
  ghost predicate PositionAt(input: seq<Byte>, p: nat, q: nat, position: nat) {
    && p <= q <= 8 * |input|
    && position < SBSIZE
    && q - p == PositionLength(position)
    && Value(input, p, q) == PositionWord(position)
  }

  // The bits p..q of the input spell token t, for the tree with these sons.
  ghost predicate TokenAt(son: seq<nat>, input: seq<Byte>, p: nat, q: nat, t: Token) {
    && Wellformed(t)
    && match t
       case Literal(_) => SymbolAt(son, input, p, q, Symbol(t))
       case Copy(distance, _) =>
         exists m: nat :: SymbolAt(son, input, p, m, Symbol(t)) && PositionAt(input, m, q, distance - 1)
  }

  // ------------------------------------------------ one reading at each place

  lemma BitsBegin(input: seq<Byte>, p: nat, m: nat, q: nat)
    requires p <= m <= q <= 8 * |input|
    ensures Bits(input, p, q)[..m - p] == Bits(input, p, m)
  {
    BitsConcat(input, p, m, q);
  }

  lemma NotShorter(son: seq<nat>, input: seq<Byte>, p: nat, m: nat, s: nat, q: nat, t: nat)
    requires SymbolAt(son, input, p, m, s) && SymbolAt(son, input, p, q, t)
    ensures m >= q
  {
    hide Bits;
    if m < q {
      BitsBegin(input, p, m, q);
      PrefixIsInternal(son, Bits(input, p, q), m - p);
    }
  }

  lemma SymbolUnique(son: seq<nat>, input: seq<Byte>, p: nat, m: nat, s: nat, q: nat, t: nat)
    requires SymbolAt(son, input, p, m, s) && SymbolAt(son, input, p, q, t)
    ensures m == q && s == t
  {
    NotShorter(son, input, p, m, s, q, t);
    NotShorter(son, input, p, q, t, m, s);
  }

  lemma OneSymbol(son: seq<nat>, input: seq<Byte>, p: nat, m: nat, s: nat)
    requires SymbolAt(son, input, p, m, s)
    ensures forall q: nat, t: nat :: SymbolAt(son, input, p, q, t) ==> q == m && t == s
  {
    hide SymbolAt;
    forall q: nat, t: nat | SymbolAt(son, input, p, q, t) ensures q == m && t == s {
      SymbolUnique(son, input, p, m, s, q, t);
    }
  }

  lemma PositionNotShorter(input: seq<Byte>, p: nat, m: nat, x: nat, q: nat, y: nat)
    requires PositionAt(input, p, m, x) && PositionAt(input, p, q, y) && m <= q
    ensures m == q && x == y
  {
    hide Value, PositionLength, PositionWord, BitReader.Join;
    ValueSplit(input, p, m, q);
    PositionPrefixFree(x, y, Value(input, m, q), q - m);
  }

  lemma PositionUnique(input: seq<Byte>, p: nat, m: nat, x: nat, q: nat, y: nat)
    requires PositionAt(input, p, m, x) && PositionAt(input, p, q, y)
    ensures m == q && x == y
  {
    hide PositionAt;
    if m <= q {
      PositionNotShorter(input, p, m, x, q, y);
    } else {
      PositionNotShorter(input, p, q, y, m, x);
    }
  }

  lemma OnePosition(input: seq<Byte>, p: nat, m: nat, x: nat)
    requires PositionAt(input, p, m, x)
    ensures forall q: nat, y: nat :: PositionAt(input, p, q, y) ==> q == m && y == x
  {
    hide PositionAt;
    forall q: nat, y: nat | PositionAt(input, p, q, y) ensures q == m && y == x {
      PositionUnique(input, p, m, x, q, y);
    }
  }

  // At any place the bits spell at most one token.
  lemma TokenUnique(son: seq<nat>, input: seq<Byte>, p: nat, m: nat, t: Token, q: nat, u: Token)
    requires TokenAt(son, input, p, m, t) && TokenAt(son, input, p, q, u)
    ensures m == q && t == u
  {
    hide SymbolAt, PositionAt;
    var i: nat :| SymbolAt(son, input, p, i, Symbol(t)) && (t.Literal? || PositionAt(input, i, m, t.distance - 1));
    var j: nat :| SymbolAt(son, input, p, j, Symbol(u)) && (u.Literal? || PositionAt(input, j, q, u.distance - 1));
    SymbolUnique(son, input, p, i, Symbol(t), j, Symbol(u));
    if t.Copy? {
      PositionUnique(input, i, m, t.distance - 1, q, u.distance - 1);
    } else {
      SymbolUnique(son, input, p, m, Symbol(t), i, Symbol(t));
      SymbolUnique(son, input, p, q, Symbol(u), i, Symbol(t));
    }
  }

  // ---------------------------------------------------------- whole inputs

  // The tree and the number of bits read, between two tokens.
  datatype Moment = Moment(tree: Tables, position: nat)

  ghost predicate Reads(input: seq<Byte>, a: Moment, t: Token, b: Moment) {
    TokenAt(a.tree.son, input, a.position, b.position, t) && Updated(a.tree, Symbol(t), b.tree)
  }

  // The moments before, between and after these tokens.
  ghost predicate Trace(input: seq<Byte>, tokens: seq<Token>, moments: seq<Moment>) {
    && |moments| == |tokens| + 1
    && FirstTree(moments[0].tree)
    && moments[0].position == 0
    && forall i: nat | i < |tokens| :: Reads(input, moments[i], tokens[i], moments[i + 1])
  }

  // No token can be read here: the input ends first.
  ghost predicate Exhausted(input: seq<Byte>, m: Moment) {
    forall t: Token, q: nat :: !TokenAt(m.tree.son, input, m.position, q, t)
  }

  // The input begins with these tokens.
  ghost predicate Begins(input: seq<Byte>, tokens: seq<Token>) {
    exists moments: seq<Moment> :: Trace(input, tokens, moments)
  }

  // These are all the tokens of the input.
  ghost predicate Encodes(input: seq<Byte>, tokens: seq<Token>) {
    exists moments: seq<Moment> :: Trace(input, tokens, moments) && Exhausted(input, moments[|tokens|])
  }

  lemma ReadsUnique(input: seq<Byte>, a: Moment, t: Token, b: Moment, u: Token, c: Moment)
    requires Reads(input, a, t, b) && Reads(input, a, u, c)
    ensures t == u && b == c
  {
    hide TokenAt, Updated;
    TokenUnique(a.tree.son, input, a.position, b.position, t, c.position, u);
    UpdatedUnique(a.tree, Symbol(t), b.tree, c.tree);
  }

  lemma {:induction false} TraceFixed(input: seq<Byte>, s: seq<Token>, a: seq<Moment>,
                                      t: seq<Token>, b: seq<Moment>, n: nat)
    requires Trace(input, s, a) && Trace(input, t, b) && n <= |s| && n <= |t|
    ensures s[..n] == t[..n] && a[n] == b[n]
  {
    hide Reads, FirstTree;
    if n == 0 {
      FirstTreeUnique(a[0].tree, b[0].tree);
    } else {
      TraceFixed(input, s, a, t, b, n - 1);
      assert Reads(input, a[n - 1], s[n - 1], a[n]) && Reads(input, b[n - 1], t[n - 1], b[n]);
      ReadsUnique(input, a[n - 1], s[n - 1], a[n], t[n - 1], b[n]);
      assert s[..n] == s[..n - 1] + [s[n - 1]] && t[..n] == t[..n - 1] + [t[n - 1]];
    }
  }

  // Of two readings of the same input the shorter one begins the longer one.
  lemma BeginsUnique(input: seq<Byte>, s: seq<Token>, t: seq<Token>)
    requires Begins(input, s) && Begins(input, t) && |s| <= |t|
    ensures s <= t
  {
    hide Trace;
    var a: seq<Moment> :| Trace(input, s, a);
    var b: seq<Moment> :| Trace(input, t, b);
    TraceFixed(input, s, a, t, b, |s|);
    assert s[..|s|] == s;
  }

  lemma NotYetExhausted(input: seq<Byte>, tokens: seq<Token>, moments: seq<Moment>, k: nat)
    requires Trace(input, tokens, moments) && k < |tokens|
    ensures !Exhausted(input, moments[k])
  {
    hide FirstTree, TokenAt, Updated;
    assert Reads(input, moments[k], tokens[k], moments[k + 1]);
  }

  // What the next symbol of an input puts out: itself if it is below 256, and otherwise
  // three bytes for 256, one more for each further symbol, that repeat those x + 1
  // places back, where x is the position after it.
  lemma Produced(input: seq<Byte>, tokens: seq<Token>, moments: seq<Moment>, i: nat, q: nat, s: nat)
    requires Trace(input, tokens, moments) && AllWellformed(tokens) && i < |tokens|
    requires SymbolAt(moments[i].tree.son, input, moments[i].position, q, s)
    ensures AllWellformed(tokens[..i]) && AllWellformed(tokens[..i + 1])
    ensures var p, h, g := moments[i + 1].position, Expand(tokens[..i]), Expand(tokens[..i + 1]);
      if s < 256 then p == q && g == h + [s]
      else
        && |g| == |h| + s - 253 && h <= g
        && exists x: nat :: x < 4096 && PositionAt(input, q, p, x)
             && forall k: nat | |h| <= k < |g| :: g[k] == g[k - x - 1]
  {
    hide FirstTree, SymbolAt, PositionAt, Updated, Append, Expand, CopyRun;
    var a, t, b := moments[i], tokens[i], moments[i + 1];
    assert Reads(input, a, t, b);
    OneSymbol(a.tree.son, input, a.position, q, s);
    assert tokens[..i + 1] == tokens[..i] + [t] && Wellformed(t);
    ExpandNext(tokens[..i], t);
    var h := Expand(tokens[..i]);
    if t.Copy? {
      CopyAppends(h, t);
    } else {
      LiteralAppends(h, t);
    }
  }

  lemma LiteralAppends(h: seq<Byte>, t: Token)
    requires SBSIZE <= |h| && t.Literal?
    ensures Append(h, t) == h + [t.byte]
  {
  }

  lemma CopyAppends(h: seq<Byte>, t: Token)
    requires SBSIZE <= |h| && t.Copy? && Wellformed(t)
    ensures var g := Append(h, t);
      |g| == |h| + t.length && forall k: nat | |h| <= k < |g| :: g[k] == g[k - t.distance]
  {
    forall k: nat | |h| <= k < |h| + t.length ensures Append(h, t)[k] == Append(h, t)[k - t.distance] {
      CopyRunRepeats(h, t.distance, t.length, k);
    }
  }

  // A reading that cannot go on contains every other.
  lemma EncodesAll(input: seq<Byte>, s: seq<Token>, t: seq<Token>)
    requires Encodes(input, s) && Begins(input, t)
    ensures t <= s
  {
    hide Reads, FirstTree, Exhausted;
    var a: seq<Moment> :| Trace(input, s, a) && Exhausted(input, a[|s|]);
    var b: seq<Moment> :| Trace(input, t, b);
    if |s| < |t| {
      NotYetExhausted(input, t, b, |s|);
      TraceFixed(input, s, a, t, b, |s|);
    } else {
      BeginsUnique(input, t, s);
    }
  }

  // An input has one meaning.
  lemma EncodesUnique(input: seq<Byte>, s: seq<Token>, t: seq<Token>)
    requires Encodes(input, s) && Encodes(input, t)
    ensures s == t
  {
    hide Trace, Exhausted;
    EncodesAll(input, s, t);
    EncodesAll(input, t, s);
  }

  // So what two readings have produced cannot disagree either.
  lemma ReadingsAgree(input: seq<Byte>, s: seq<Token>, g: seq<Byte>, t: seq<Token>, h: seq<Byte>)
    requires Begins(input, s) && AllWellformed(s) && g <= Expand(s)
    requires Begins(input, t) && AllWellformed(t) && h <= Expand(t)
    requires |g| <= |h|
    ensures g <= h
  {
    hide Begins, Expand, AllWellformed;
    if |s| <= |t| {
      BeginsUnique(input, s, t);
      ExpandGrows(t, |s|);
      assert t[..|s|] == s;
    } else {
      BeginsUnique(input, t, s);
      ExpandGrows(s, |t|);
      assert s[..|t|] == t;
    }
  }

  lemma TraceSnoc(input: seq<Byte>, tokens: seq<Token>, moments: seq<Moment>, t: Token, m: Moment)
    requires Trace(input, tokens, moments) && Reads(input, moments[|tokens|], t, m)
    ensures Trace(input, tokens + [t], moments + [m])
  {
    hide Reads, FirstTree;
  }

  lemma CopyRead(input: seq<Byte>, m: Moment, q: nat, c: nat, position: nat, here: Moment)
    requires 256 <= c < N_CHAR && SymbolAt(m.tree.son, input, m.position, q, c)
    requires PositionAt(input, q, here.position, position) && Updated(m.tree, c, here.tree)
    ensures position < SBSIZE && Wellformed(Copy(position + 1, c - 253))
    ensures Reads(input, m, Copy(position + 1, c - 253), here)
  {
    hide SymbolAt, Updated, Value, PositionLength, PositionWord;
    var t := Copy(position + 1, c - 253);
    assert SymbolAt(m.tree.son, input, m.position, q, Symbol(t))
      && PositionAt(input, q, here.position, t.distance - 1);
  }

  // ------------------------------------------------------ the end of the input

  // The root is no leaf, so that every token takes a bit at least ...
  lemma TokenTakesBits(tree: Tables, input: seq<Byte>, p: nat, q: nat, t: Token)
    requires Sound(tree) && TokenAt(tree.son, input, p, q, t)
    ensures p < q <= 8 * |input|
  {
    hide PositionAt, SymbolAt, Shape, Weighted;
    var m: nat :| SymbolAt(tree.son, input, p, m, Symbol(t)) && (t.Literal? || PositionAt(input, m, q, t.distance - 1));
    SymbolTakesBits(tree, input, p, m, Symbol(t));
    if t.Copy? {
      PositionForward(input, m, q, t.distance - 1);
    } else {
      SymbolUnique(tree.son, input, p, m, Symbol(t), q, Symbol(t));
    }
  }

  lemma SymbolTakesBits(tree: Tables, input: seq<Byte>, p: nat, q: nat, s: nat)
    requires Sound(tree) && SymbolAt(tree.son, input, p, q, s)
    ensures p < q <= 8 * |input|
  {
    hide Shape, Weighted;
    RootIsInternal(tree.son, tree.parent);
  }

  lemma PositionForward(input: seq<Byte>, p: nat, q: nat, position: nat)
    requires PositionAt(input, p, q, position)
    ensures p <= q <= 8 * |input|
  {
  }

  lemma {:induction false} TraceAdvances(input: seq<Byte>, tokens: seq<Token>, moments: seq<Moment>, n: nat)
    requires Trace(input, tokens, moments) && n <= |tokens|
    ensures Sound(moments[n].tree) && n <= moments[n].position <= 8 * |input|
  {
    hide TokenAt, Updated, Sound, FirstSons;
    if n == 0 {
      assert Sound(moments[0].tree);
    } else {
      TraceAdvances(input, tokens, moments, n - 1);
      var a, b := moments[n - 1], moments[n];
      assert Reads(input, a, tokens[n - 1], b);
      TokenTakesBits(a.tree, input, a.position, b.position, tokens[n - 1]);
      UpdatedCounts(a.tree, Symbol(tokens[n - 1]), b.tree);
    }
  }

  // ... and an input has no more tokens than bits.
  lemma FewTokens(input: seq<Byte>, tokens: seq<Token>)
    requires Begins(input, tokens)
    ensures |tokens| <= 8 * |input|
  {
    hide Trace;
    var moments: seq<Moment> :| Trace(input, tokens, moments);
    TraceAdvances(input, tokens, moments, |tokens|);
  }

  // The walk is still inside the tree when the bits run out.
  lemma InsideTree(son: seq<nat>, input: seq<Byte>, p: nat)
    requires |son| == TSIZE && p <= 8 * |input|
    requires var n := Walk(son, Bits(input, p, 8 * |input|)); n < TSIZE && son[n] < TSIZE
    ensures forall q: nat, s: nat :: !SymbolAt(son, input, p, q, s)
  {
    hide Bits;
    forall q: nat, s: nat ensures !SymbolAt(son, input, p, q, s) {
      if SymbolAt(son, input, p, q, s) {
        BitsBegin(input, p, q, 8 * |input|);
        if q < 8 * |input| {
          PrefixIsInternal(son, Bits(input, p, 8 * |input|), q - p);
        }
      }
    }
  }

  lemma AllRead(input: seq<Byte>, tokens: seq<Token>, moments: seq<Moment>)
    requires Trace(input, tokens, moments) && Exhausted(input, moments[|tokens|])
    ensures Encodes(input, tokens)
  {
    hide Exhausted;
  }

  lemma NoSymbolLeft(input: seq<Byte>, m: Moment)
    requires forall q: nat, s: nat :: !SymbolAt(m.tree.son, input, m.position, q, s)
    ensures Exhausted(input, m)
  {
    hide SymbolAt;
  }

  // The symbol of a copy, but no position behind it.
  lemma NoPositionLeft(input: seq<Byte>, m: Moment, q: nat, c: nat)
    requires SymbolAt(m.tree.son, input, m.position, q, c) && c >= 256
    requires forall r: nat, x: nat :: !PositionAt(input, q, r, x)
    ensures Exhausted(input, m)
  {
    hide SymbolAt, PositionAt;
    forall t: Token, r: nat ensures !TokenAt(m.tree.son, input, m.position, r, t) {
      if TokenAt(m.tree.son, input, m.position, r, t) {
        var i: nat :| SymbolAt(m.tree.son, input, m.position, i, Symbol(t))
          && (t.Literal? || PositionAt(input, i, r, t.distance - 1));
        SymbolUnique(m.tree.son, input, m.position, i, Symbol(t), q, c);
      }
    }
  }

  // Not even a byte is left.
  lemma NoByteLeft(input: seq<Byte>, p: nat)
    requires p + 8 > 8 * |input|
    ensures forall q: nat, x: nat :: !PositionAt(input, p, q, x)
  {
    hide PositionWord, Value;
  }

  // The first byte announces more bits than are left.
  lemma NoBitsLeft(input: seq<Byte>, p: nat)
    requires p + 8 <= 8 * |input| && p + 7 + DLen(Value(input, p, p + 8) / 16) > 8 * |input|
    ensures forall q: nat, x: nat :: !PositionAt(input, p, q, x)
  {
    hide PositionWord, PositionLength, Value, DLen, BitReader.Join;
    forall q: nat, x: nat ensures !PositionAt(input, p, q, x) {
      if PositionAt(input, p, q, x) {
        PositionWordFits(x);
        ValueSplit(input, p, p + 8, q);
        PositionFirstByte(x, Value(input, p, p + 8), Value(input, p + 8, q));
      }
    }
  }
}
