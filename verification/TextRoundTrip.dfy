/**
 Decoding undoes encoding, up to the normal form of a text, however it comes in pieces.
 */
module TextRoundTrip {
  import opened Bytes
  import opened TextFormat
  import E = TextEncode
  import D = TextDecode

  // --------------------------------------------------------- tabs or no tabs

  // The same, but for tabs in the indentation.
  predicate Agree(a: D.Decoding, b: D.Decoding) {
    && a.column == b.column && a.nonWhite == b.nonWhite && a.dleSeen == b.dleSeen
    && b.out == Expanded(a.out) && (!a.nonWhite ==> Column(a.out) == 0)
  }

  lemma SpacesAppend(s: seq<Byte>, m: nat, n: nat)
    ensures s + Spaces(m) + Spaces(n) == s + Spaces(m + n)
  {
  }

  lemma TabExpands(o: seq<Byte>)
    ensures Column(o + [TAB]) == NextStop(Column(o)) > Column(o)
    ensures Expanded(o + [TAB]) == Expanded(o) + Spaces(NextStop(Column(o)) - Column(o))
  {
    Snoc(o, TAB);
  }

  lemma {:induction false} LeadExpands(o: seq<Byte>, k: nat, column: nat)
    requires Column(o) == k <= column
    ensures Expanded(o + D.Lead(k, column, true)) == Expanded(o) + Spaces(column - k)
    decreases column - k
  {
    hide Expanded, Column, NextStop, Spaces, D.Lead;
    if k + 1 != column && NextStop(k) <= column {
      var next := NextStop(k);
      TabExpands(o);
      D.LeadTab(o, k, column);
      LeadExpands(o + [TAB], next, column);
      SpacesAppend(Expanded(o), next - k, column - next);
    } else {
      D.LeadSpaces(k, column, true);
      ExpandedAppend(o, Spaces(column - k));
    }
  }

  lemma NormallyAgrees(a: D.Decoding, b: D.Decoding, c: Byte)
    requires Agree(a, b) && c != TAB
    ensures Agree(D.Normally(a, c, true), D.Normally(b, c, false))
  {
    hide Expanded, Column;
    if a.nonWhite {
      ExpandedAppend(a.out, [c]);
    } else {
      LeadExpands(a.out, 0, a.column);
      ExpandedAppend(a.out + D.Lead(0, a.column, true), [c]);
    }
  }

  lemma PlainlyAgrees(a: D.Decoding, b: D.Decoding, c: Byte)
    requires Agree(a, b) && c != TAB
    ensures Agree(D.Plainly(a, c, true), D.Plainly(b, c, false))
  {
    if c == CR || c == NL {
      ExpandedAppend(a.out, [NL]);
      Snoc(a.out, NL);
    } else if c != 0 && c != DLE {
      NormallyAgrees(a, b, c);
    }
  }

  lemma CharacterAgrees(a: D.Decoding, b: D.Decoding, c: Byte)
    requires Agree(a, b) && c != TAB
    ensures Agree(D.Character(a, c, true), D.Character(b, c, false))
  {
    hide Expanded, Column, D.Normally, D.Plainly;
    if !a.dleSeen {
      PlainlyAgrees(a, b, c);
    } else {
      var a1, b1 := a.(dleSeen := false), b.(dleSeen := false);
      if c < 32 {
        NormallyAgrees(a1, b1, DLE);
        PlainlyAgrees(D.Normally(a1, DLE, true), D.Normally(b1, DLE, false), c);
      } else if a.nonWhite {
        ExpandedAppend(a.out, Spaces(c - 32));
      }
    }
  }

  // Whatever is decoded, tabs in the result stand for just the spaces it has without.
  lemma {:induction false} TabsAgree(a: D.Decoding, b: D.Decoding, t: seq<Byte>)
    requires Agree(a, b) && TAB !in t
    ensures Agree(D.Feed(a, t, true), D.Feed(b, t, false))
  {
    if t != [] {
      TabsAgree(a, b, Front(t));
      CharacterAgrees(D.Feed(a, Front(t), true), D.Feed(b, Front(t), false), Last(t));
    }
  }

  // ------------------------------------------------------------------ header

  predicate AllZero(s: seq<Byte>) {
    forall i: nat | i < |s| :: s[i] == 0
  }

  // NULs are nothing.
  lemma {:induction false} ZerosIgnored(d: D.Decoding, s: seq<Byte>, tabs: bool)
    requires !d.dleSeen && AllZero(s)
    ensures D.Feed(d, s, tabs) == d
  {
    if s != [] {
      ZerosIgnored(d, Front(s), tabs);
    }
  }

  // What the filter is after a part u of a file that starts with 1024 NULs: either it
  // skips them, or it takes them for text, which comes to the same.
  predicate After(f: D.Filter, u: seq<Byte>, tabs: bool) {
    || (f.startOfFile > 0 && f.startOfFile + |u| == D.HEADER && f.decoding == D.NOTHING)
    || (f.startOfFile == 0 && f.decoding == D.Feed(D.NOTHING, u, tabs))
  }

  predicate NulHeader(s: seq<Byte>) {
    forall i: nat | i < |s| && i < D.HEADER :: s[i] == 0
  }

  lemma AfterChunk(f: D.Filter, u: seq<Byte>, data: seq<Byte>, tabs: bool)
    requires After(f, u, tabs) && NulHeader(u + data)
    ensures After(D.Chunk(f, data, tabs), u + data, tabs)
  {
    hide D.LooksLikeText, D.Feed;
    var skip := D.Skip(f, data);
    D.FeedAppend(D.NOTHING, u, data, tabs);
    if f.startOfFile == 0 || skip == 0 {
      Nothing(f, u, tabs);
      if data == [] {
        assert u + data == u;
      } else {
        assert data[0..] == data;
      }
    } else if skip >= |data| {
      if skip == |data| {
        assert AllZero(u + data);
        ZerosIgnored(D.NOTHING, u + data, tabs);
      }
    } else {
      assert u + data == (u + data[..skip]) + data[skip..];
      assert forall i: nat | i < |u + data[..skip]| :: (u + data[..skip])[i] == (u + data)[i];
      ZerosIgnored(D.NOTHING, u + data[..skip], tabs);
      D.FeedAppend(D.NOTHING, u + data[..skip], data[skip..], tabs);
    }
  }

  // Nothing has been decoded before the first chunk.
  lemma Nothing(f: D.Filter, u: seq<Byte>, tabs: bool)
    requires After(f, u, tabs) && (f.startOfFile == 0 || f.startOfFile == D.HEADER)
    ensures f.decoding == D.Feed(D.NOTHING, u, tabs)
  {
  }

  lemma {:induction false} AfterChunks(f: D.Filter, u: seq<Byte>, pieces: seq<seq<Byte>>, tabs: bool)
    requires After(f, u, tabs) && NulHeader(u + Joined(pieces))
    ensures After(D.Chunks(f, pieces, tabs), u + Joined(pieces), tabs)
    decreases |pieces|
  {
    if pieces == [] {
      assert u + [] == u;
    } else {
      hide D.Chunk, D.Feed;
      var v := u + pieces[0];
      assert u + Joined(pieces) == v + Joined(pieces[1..]);
      assert forall i: nat | i < |v| :: v[i] == (u + Joined(pieces))[i];
      AfterChunk(f, u, pieces[0], tabs);
      AfterChunks(D.Chunk(f, pieces[0], tabs), v, pieces[1..], tabs);
    }
  }

  // A file that starts with 1024 NULs is decoded the same way however it is cut up.
  lemma ChunksDoNotMatter(pieces: seq<seq<Byte>>, tabs: bool)
    requires |Joined(pieces)| >= D.HEADER && NulHeader(Joined(pieces))
    ensures D.Chunks(D.FRESH, pieces, tabs).decoding == D.Feed(D.NOTHING, Joined(pieces), tabs)
  {
    var s := Joined(pieces);
    assert [] + s == s;
    AfterChunks(D.FRESH, [], pieces, tabs);
  }

  // What is still to be skipped, when the first piece has been seen not to be text.
  predicate Skipping(f: D.Filter, u: seq<Byte>, tabs: bool) {
    if |u| < D.HEADER then f == D.Filter(D.HEADER - |u|, D.NOTHING)
    else f == D.Filter(0, D.Feed(D.NOTHING, u[D.HEADER..], tabs))
  }

  lemma SkipMore(f: D.Filter, u: seq<Byte>, data: seq<Byte>, tabs: bool)
    requires Skipping(f, u, tabs) && (u != [] || !D.LooksLikeText(data))
    ensures Skipping(D.Chunk(f, data, tabs), u + data, tabs)
  {
    hide D.LooksLikeText, D.Feed;
    var skip := D.Skip(f, data);
    if skip >= |data| {
      if skip == |data| {
        assert (u + data)[D.HEADER..] == if |u| < D.HEADER then [] else u[D.HEADER..];
        NoFeed(D.NOTHING);
      }
    } else if |u| < D.HEADER {
      assert (u + data)[D.HEADER..] == data[skip..];
    } else {
      assert data[0..] == data && (u + data)[D.HEADER..] == u[D.HEADER..] + data;
      D.FeedAppend(D.NOTHING, u[D.HEADER..], data, tabs);
    }
  }

  lemma NoFeed(d: D.Decoding)
    ensures D.Feed(d, [], false) == d && D.Feed(d, [], true) == d
  {
  }

  lemma {:induction false} SkipAll(f: D.Filter, u: seq<Byte>, pieces: seq<seq<Byte>>, tabs: bool)
    requires Skipping(f, u, tabs) && u != []
    ensures Skipping(D.Chunks(f, pieces, tabs), u + Joined(pieces), tabs)
    decreases |pieces|
  {
    if pieces == [] {
      assert u + [] == u;
    } else {
      hide D.Chunk, D.Feed;
      SkipMore(f, u, pieces[0], tabs);
      SkipAll(D.Chunk(f, pieces[0], tabs), u + pieces[0], pieces[1..], tabs);
      assert u + Joined(pieces) == u + pieces[0] + Joined(pieces[1..]);
    }
  }

  lemma {:induction false} ReadAll(d: D.Decoding, pieces: seq<seq<Byte>>, tabs: bool)
    ensures D.Chunks(D.Filter(0, d), pieces, tabs) == D.Filter(0, D.Feed(d, Joined(pieces), tabs))
    decreases |pieces|
  {
    if pieces == [] {
      NoFeed(d);
    } else {
      assert pieces[0][0..] == pieces[0];
      var e := D.Feed(d, pieces[0], tabs);
      if pieces[0] == [] {
        NoFeed(d);
      }
      ReadAll(e, pieces[1..], tabs);
      D.FeedAppend(d, pieces[0], Joined(pieces[1..]), tabs);
    }
  }

  // A file without its header.
  function Headless(s: seq<Byte>): seq<Byte> {
    if |s| < 1024 then [] else s[1024..]
  }

  // Of any file, only the first piece decides anything: whether 1024 bytes are skipped.
  lemma FirstPieceDecides(pieces: seq<seq<Byte>>, tabs: bool)
    requires pieces != []
    ensures var s := Joined(pieces);
      D.Chunks(D.FRESH, pieces, tabs).decoding
        == D.Feed(D.NOTHING, if D.LooksLikeText(pieces[0]) then s else Headless(s), tabs)
  {
    EmptyIsText();
    hide D.LooksLikeText, D.Feed;
    if D.LooksLikeText(pieces[0]) {
      ReadAll(D.NOTHING, pieces, tabs);
      assert D.Chunk(D.FRESH, pieces[0], tabs) == D.Chunk(D.Filter(0, D.NOTHING), pieces[0], tabs);
    } else {
      SkipMore(D.FRESH, [], pieces[0], tabs);
      assert [] + pieces[0] == pieces[0];
      SkipAll(D.Chunk(D.FRESH, pieces[0], tabs), pieces[0], pieces[1..], tabs);
      NoFeed(D.NOTHING);
    }
  }

  lemma EmptyIsText()
    ensures D.LooksLikeText([])
  {
  }

  // Two cuttings of one file agree just when their first pieces look alike, or the file
  // is decoded the same with and without its first 1024 bytes.
  lemma CuttingsAgree(a: seq<seq<Byte>>, b: seq<seq<Byte>>, tabs: bool)
    requires a != [] && b != [] && Joined(a) == Joined(b)
    ensures D.Chunks(D.FRESH, a, tabs).decoding == D.Chunks(D.FRESH, b, tabs).decoding <==>
      (D.LooksLikeText(a[0]) <==> D.LooksLikeText(b[0]))
      || D.Feed(D.NOTHING, Joined(a), tabs) == D.Feed(D.NOTHING, Headless(Joined(a)), tabs)
  {
    hide D.LooksLikeText, D.Feed, D.Chunks, Headless;
    FirstPieceDecides(a, tabs);
    FirstPieceDecides(b, tabs);
  }

  // Two bytes, put in one by one or at once.
  lemma CuttingsDiffer()
    ensures var a, b := [[65], [1]], [[65, 1]];
      Joined(a) == Joined(b)
      && D.Chunks(D.FRESH, a, false).decoding != D.Chunks(D.FRESH, b, false).decoding
  {
    var a: seq<seq<Byte>>, b: seq<seq<Byte>> := [[65], [1]], [[65, 1]];
    var s: seq<Byte> := [65, 1];
    OneIsText();
    hide D.LooksLikeText;
    assert Joined(a[1..]) == [1] + [] && Joined(a) == s && Joined(b) == s;
    FirstPieceDecides(a, false);
    FirstPieceDecides(b, false);
    assert Front(s) == [65] && Front([65]) == [];
    assert D.Feed(D.NOTHING, s, false).column == 2;
  }

  lemma OneIsText()
    ensures D.LooksLikeText([65]) && !D.LooksLikeText([65, 1])
  {
    var s: seq<Byte>, t: seq<Byte> := [65], [65, 1];
    assert Last(s) == 65 && D.Trimmed(s) == s && D.BeginsWithText(s);
    assert Last(t) == 1 && D.Trimmed(t) == t;
    assert !D.IsTextCharacter(t[1]) && !D.BeginsWithText(t);
  }

  // ------------------------------------------------------------------- lines

  // Where the first character that shows is.
  function FirstShown(p: seq<Byte>): nat {
    if p == [] then 0 else if !Blank(Front(p)) then FirstShown(Front(p)) else Column(Front(p))
  }

  predicate AllPrint(s: seq<Byte>) {
    forall i: nat | i < |s| :: IsPrint(s[i])
  }

  predicate AllSpaces(s: seq<Byte>) {
    forall i: nat | i < |s| :: s[i] == SPACE
  }

  // A line being read is its indentation and the rest of its expanded form.
  predicate Scanned(l: E.Line, p: seq<Byte>, dle: bool) {
    && l.column == Column(p) == |Expanded(p)|
    && if Blank(p) then !l.nonWhite && l.acc == [] && AllSpaces(Expanded(p))
       else
         var k := FirstShown(p);
         && l.nonWhite && k < |Expanded(p)| && AllSpaces(Expanded(p)[..k]) && AllPrint(Expanded(p)[k..])
         && l.acc == E.Indent(k, dle) + Expanded(p)[k..]
  }

  // What one more character adds to the expanded form.
  function Added(column: nat, c: Byte): seq<Byte> {
    if c == TAB then Spaces(NextStop(column) - column) else [c]
  }

  lemma ExpandedMore(p: seq<Byte>)
    requires p != [] && Last(p) != NL
    ensures Expanded(p) == Expanded(Front(p)) + Added(Column(Front(p)), Last(p))
    ensures Column(p) == Column(Front(p)) + |Added(Column(Front(p)), Last(p))|
  {
  }

  lemma BlankMore(p: seq<Byte>)
    requires p != []
    ensures Blank(p) <==> Blank(Front(p)) && White(Last(p))
  {
    assert p == Front(p) + [Last(p)];
  }

  lemma ShownOnce(p: seq<Byte>)
    requires p != []
    ensures FirstShown(p) == if Blank(Front(p)) then Column(Front(p)) else FirstShown(Front(p))
  {
  }

  // After the first character that shows, the expanded form just grows.
  lemma ScannedOn(l: E.Line, p: seq<Byte>, dle: bool)
    requires p != [] && Clean(p) && NL !in p && Scanned(l, Front(p), dle) && !Blank(Front(p))
    ensures Scanned(E.Character(l, Last(p), dle), p, dle)
  {
    var q, c := Front(p), Last(p);
    ExpandedMore(p);
    BlankMore(p);
    ShownOnce(p);
    hide E.Indent, Expanded, Column, FirstShown, NextStop, Blank;
    var k, x, z := FirstShown(q), Expanded(q), Added(Column(q), c);
    Grown(x, z, k);
    assert E.Character(l, c, dle).acc == l.acc + z;
    assert E.Indent(k, dle) + x[k..] + z == E.Indent(k, dle) + (x[k..] + z);
  }

  lemma Grown(x: seq<Byte>, z: seq<Byte>, k: nat)
    requires k < |x| && AllPrint(x[k..]) && AllPrint(z)
    ensures (x + z)[..k] == x[..k] && (x + z)[k..] == x[k..] + z && AllPrint((x + z)[k..])
  {
  }

  // Before it there are only spaces.
  lemma ScannedFirst(l: E.Line, p: seq<Byte>, dle: bool)
    requires p != [] && Clean(p) && NL !in p && Scanned(l, Front(p), dle) && Blank(Front(p))
    ensures Scanned(E.Character(l, Last(p), dle), p, dle)
  {
    var q, c := Front(p), Last(p);
    ExpandedMore(p);
    BlankMore(p);
    ShownOnce(p);
    hide E.Indent, Expanded, Column, FirstShown, NextStop, Blank;
    var x, y := Expanded(q), Expanded(p);
    if !White(c) {
      assert y[..|x|] == x && y[|x|..] == [c];
    }
  }

  lemma ScannedStep(l: E.Line, p: seq<Byte>, dle: bool)
    requires p != [] && Clean(p) && NL !in p && Scanned(l, Front(p), dle)
    ensures Scanned(E.Character(l, Last(p), dle), p, dle)
  {
    hide Scanned, E.Character;
    if Blank(Front(p)) {
      ScannedFirst(l, p, dle);
    } else {
      ScannedOn(l, p, dle);
    }
  }

  lemma {:induction false} LineScanned(p: seq<Byte>, dle: bool)
    requires Clean(p) && NL !in p
    ensures Scanned(E.Scan(p, dle), p, dle)
  {
    if p != [] {
      LineScanned(Front(p), dle);
      ScannedStep(E.Scan(Front(p), dle), p, dle);
    }
  }

  // What has been decoded, with the indentation still owed.
  function Flushed(d: D.Decoding): seq<Byte> {
    if d.nonWhite then d.out else d.out + Spaces(d.column)
  }

  lemma LeadIsSpaces(column: nat)
    ensures D.Lead(0, column, false) == Spaces(column)
  {
  }

  lemma {:induction false} PrintDecodes(d: D.Decoding, s: seq<Byte>)
    requires !d.dleSeen && AllPrint(s)
    ensures var e := D.Feed(d, s, false);
      Flushed(e) == Flushed(d) + s && !e.dleSeen && e.nonWhite == (d.nonWhite || s != [])
  {
    if s != [] {
      PrintDecodes(d, Front(s));
      var e := D.Feed(d, Front(s), false);
      LeadIsSpaces(e.column);
      assert s == Front(s) + [Last(s)];
    }
  }

  lemma PairDecodes(d: D.Decoding, n: nat)
    requires !d.dleSeen && n < 224
    ensures var e := D.Feed(d, [DLE, n + 32], false);
      Flushed(e) == Flushed(d) + Spaces(n) && !e.dleSeen && e.nonWhite == d.nonWhite
  {
    D.FeedAppend(d, [DLE], [n + 32], false);
    D.FeedOne(d, DLE, false);
    D.FeedOne(D.Character(d, DLE, false), n + 32, false);
    assert [DLE] + [n + 32] == [DLE, n + 32];
    assert Spaces(d.column) + Spaces(n) == Spaces(d.column + n);
  }

  lemma ShortDecodes(d: D.Decoding, n: nat, dle: bool)
    requires !d.dleSeen && (dle ==> n < E.WIDE)
    ensures var e := D.Feed(d, E.ShortIndent(n, dle), false);
      Flushed(e) == Flushed(d) + Spaces(n) && !e.dleSeen
  {
    if n <= 2 || !dle {
      PrintDecodes(d, Spaces(n));
    } else {
      PairDecodes(d, n);
    }
  }

  lemma {:induction false} IndentDecodes(d: D.Decoding, k: nat, dle: bool)
    requires !d.dleSeen
    ensures var e := D.Feed(d, E.Indent(k, dle), false);
      Flushed(e) == Flushed(d) + Spaces(k) && !e.dleSeen
    decreases k
  {
    hide D.Feed, Flushed;
    if dle && k >= E.WIDE {
      PairDecodes(d, E.WIDE);
      var e := D.Feed(d, [DLE, 255], false);
      IndentDecodes(e, k - E.WIDE, dle);
      D.FeedAppend(d, [DLE, 255], E.Indent(k - E.WIDE, dle), false);
      assert Spaces(E.WIDE) + Spaces(k - E.WIDE) == Spaces(k);
    } else {
      ShortDecodes(d, k, dle);
    }
  }

  // At the start of a line, with this much decoded.
  function AtLine(out: seq<Byte>): D.Decoding {
    D.Decoding(0, false, false, out)
  }

  lemma ReturnDecodes(d: D.Decoding)
    requires !d.dleSeen
    ensures D.Feed(d, [CR], false) == AtLine(d.out + [NL])
  {
  }

  // An encoded line is decoded to its normal form.
  lemma LineDecodes(out: seq<Byte>, p: seq<Byte>, dle: bool)
    requires Clean(p) && NL !in p
    ensures D.Feed(AtLine(out), E.Scan(p, dle).acc + [CR], false) == AtLine(out + NormalLine(p) + [NL])
  {
    hide D.Feed, E.Indent, E.Scan, Expanded;
    LineScanned(p, dle);
    var acc, d := E.Scan(p, dle).acc, AtLine(out);
    D.FeedAppend(d, acc, [CR], false);
    if Blank(p) {
      assert D.Feed(d, [], false) == d by { NoFeed(d); }
      ReturnDecodes(d);
      assert out + [] + [NL] == out + [NL];
    } else {
      var k, x := FirstShown(p), Expanded(p);
      D.FeedAppend(d, E.Indent(k, dle), x[k..], false);
      IndentDecodes(d, k, dle);
      var e := D.Feed(d, E.Indent(k, dle), false);
      PrintDecodes(e, x[k..]);
      assert Flushed(d) == out;
      assert x[..k] == Spaces(k) && x == x[..k] + x[k..];
      assert out + Spaces(k) + x[k..] == out + x;
      ReturnDecodes(D.Feed(e, x[k..], false));
    }
  }

  // ------------------------------------------------------------------- texts

  // Every line, encoded and with its carriage return, fits in a block.
  predicate LinesFit(s: seq<Byte>, dle: bool, nul: bool) {
    forall n: nat | n <= |s| :: LineFits(LastLine(s[..n]), dle, nul)
  }

  predicate LineFits(line: seq<Byte>, dle: bool, nul: bool) {
    |E.Scan(line, dle).acc| < E.PerBlock(nul)
  }

  // What has been encoded is decoded to the complete lines, and the rest is being read.
  predicate Decodes(e: E.Encoding, s: seq<Byte>, dle: bool) {
    && e.address < E.BLOCK && e.line == E.Scan(LastLine(s), dle)
    && D.Feed(D.NOTHING, e.out, false) == AtLine(NormalLines(s))
  }

  lemma WriteLineOut(e: E.Encoding, nul: bool)
    requires e.address < E.BLOCK && |e.line.acc| < E.PerBlock(nul)
    ensures exists n: nat :: E.WriteLine(e, nul).out == e.out + Zeros(n) + (e.line.acc + [CR])
    ensures E.WriteLine(e, nul).line == E.NO_LINE && E.WriteLine(e, nul).address < E.BLOCK
  {
    var line := e.line.acc + [CR];
    var n := if e.address + |line| > E.PerBlock(nul) then E.BLOCK - e.address else 0;
    assert E.Chopped(line, nul) == ([], line);
    assert Zeros(0) == [];
    assert e.out + Zeros(n) + [] + line == e.out + Zeros(n) + line;
  }

  lemma WriteLineDecodes(e: E.Encoding, out: seq<Byte>, p: seq<Byte>, dle: bool, nul: bool)
    requires e.address < E.BLOCK && e.line == E.Scan(p, dle) && LineFits(p, dle, nul) && Clean(p) && NL !in p
    requires D.Feed(D.NOTHING, e.out, false) == AtLine(out)
    ensures D.Feed(D.NOTHING, E.WriteLine(e, nul).out, false) == AtLine(out + NormalLine(p) + [NL])
  {
    hide D.Feed, E.WriteLine, E.Scan, NormalLine;
    WriteLineOut(e, nul);
    var n: nat :| E.WriteLine(e, nul).out == e.out + Zeros(n) + (e.line.acc + [CR]);
    D.FeedAppend(D.NOTHING, e.out + Zeros(n), e.line.acc + [CR], false);
    D.FeedAppend(D.NOTHING, e.out, Zeros(n), false);
    ZerosIgnored(AtLine(out), Zeros(n), false);
    LineDecodes(out, p, dle);
  }

  lemma FrontFits(s: seq<Byte>, dle: bool, nul: bool)
    requires s != [] && Clean(s) && LinesFit(s, dle, nul)
    ensures Clean(Front(s)) && LinesFit(Front(s), dle, nul) && LineFits(LastLine(Front(s)), dle, nul)
    ensures Clean(LastLine(Front(s))) && NL !in LastLine(Front(s))
  {
    var f := Front(s);
    assert forall i: nat | i < |f| :: f[i] == s[i];
    forall n: nat | n <= |f| ensures LineFits(LastLine(f[..n]), dle, nul) {
      assert f[..n] == s[..n];
    }
    assert f[..|f|] == f;
    LastLineClean(f);
  }

  lemma LineEnds(e: E.Encoding, s: seq<Byte>, dle: bool, nul: bool)
    requires s != [] && Last(s) == NL && Decodes(e, Front(s), dle)
    requires Clean(s) && LinesFit(s, dle, nul)
    ensures Decodes(E.WriteLine(e, nul), s, dle)
  {
    hide D.Feed, E.WriteLine, LinesFit, LineFits;
    FrontFits(s, dle, nul);
    WriteLineDecodes(e, NormalLines(Front(s)), LastLine(Front(s)), dle, nul);
    WroteLine(e, nul);
  }

  lemma LineGoesOn(e: E.Encoding, s: seq<Byte>, dle: bool)
    requires s != [] && Last(s) != NL && Decodes(e, Front(s), dle)
    ensures Decodes(e.(line := E.Character(e.line, Last(s), dle)), s, dle)
  {
    hide D.Feed, E.Character;
    Snoc(LastLine(Front(s)), Last(s));
  }

  lemma {:induction false} FeedDecodes(s: seq<Byte>, dle: bool, nul: bool)
    requires Clean(s) && LinesFit(s, dle, nul)
    ensures Decodes(E.Feed(E.Start(), s, dle, nul), s, dle)
  {
    if s == [] {
      ZerosIgnored(D.NOTHING, Zeros(E.BLOCK), false);
    } else {
      hide D.Feed, E.WriteLine, E.Character, LinesFit, LineFits, Decodes;
      FrontFits(s, dle, nul);
      FeedDecodes(Front(s), dle, nul);
      var before := E.Feed(E.Start(), Front(s), dle, nul);
      if Last(s) == NL {
        LineEnds(before, s, dle, nul);
      } else {
        assert Last(s) != CR;
        LineGoesOn(before, s, dle);
      }
    }
  }

  lemma WroteLine(e: E.Encoding, nul: bool)
    requires e.address < E.BLOCK
    ensures E.WriteLine(e, nul).line == E.NO_LINE && E.WriteLine(e, nul).address < E.BLOCK
  {
  }

  // The NULs at the end are nothing.
  lemma ClosedDecodes(e: E.Encoding, out: seq<Byte>, nul: bool)
    requires e.address < E.BLOCK
    requires var last := if e.line.acc != [] then E.WriteLine(e, nul) else e;
      D.Feed(D.NOTHING, last.out, false) == AtLine(out)
    ensures D.Feed(D.NOTHING, E.Closed(e, nul), false) == AtLine(out)
  {
    hide D.Feed, E.WriteLine;
    WroteLine(e, nul);
    var last := if e.line.acc != [] then E.WriteLine(e, nul) else e;
    var pad := Zeros((E.BLOCK - last.address) % E.BLOCK);
    assert E.Closed(e, nul) == last.out + pad;
    D.FeedAppend(D.NOTHING, last.out, pad, false);
    ZerosIgnored(AtLine(out), pad, false);
  }

  // The whole encoded text, decoded in one piece.
  lemma EncodedDecodes(s: seq<Byte>, dle: bool, nul: bool)
    requires Clean(s) && LinesFit(s, dle, nul)
    ensures D.Feed(D.NOTHING, E.Encode(s, dle, nul), false) == AtLine(Normal(s))
  {
    hide D.Feed, E.WriteLine, E.Feed, NormalLines;
    FeedDecodes(s, dle, nul);
    var e, p := E.Feed(E.Start(), s, dle, nul), LastLine(s);
    LastLineClean(s);
    LineScanned(p, dle);
    assert s[..|s|] == s && LineFits(p, dle, nul);
    if e.line.acc != [] {
      assert !Blank(p);
      WriteLineDecodes(e, NormalLines(s), p, dle, nul);
      assert NormalLines(s) + NormalLine(p) + [NL] == NormalLines(s) + (NormalLine(p) + [NL]);
    } else {
      assert Blank(p);
      assert NormalLines(s) + [] == NormalLines(s);
    }
    ClosedDecodes(e, Normal(s), nul);
  }

  // An encoded text begins with the header, and has no tab in it.
  lemma {:induction false} FeedHeader(s: seq<Byte>, dle: bool, nul: bool)
    ensures var out := E.Feed(E.Start(), s, dle, nul).out; |out| >= E.BLOCK && out[..E.BLOCK] == Zeros(E.BLOCK)
  {
    if s != [] {
      FeedHeader(Front(s), dle, nul);
    }
  }

  lemma EncodedHeader(s: seq<Byte>, dle: bool, nul: bool)
    ensures |E.Encode(s, dle, nul)| >= D.HEADER && NulHeader(E.Encode(s, dle, nul))
  {
    FeedHeader(s, dle, nul);
    var e := E.Feed(E.Start(), s, dle, nul);
    hide E.Feed, E.Chopped;
    assert E.Encode(s, dle, nul)[..E.BLOCK] == e.out[..E.BLOCK];
    assert forall i: nat | i < E.BLOCK :: E.Encode(s, dle, nul)[i] == e.out[..E.BLOCK][i];
  }

  // --------------------------------------------------------- no tabs come out

  lemma {:induction false} IndentHasNoTab(column: nat, dle: bool)
    ensures TAB !in E.Indent(column, dle)
    decreases column
  {
    if dle && column >= E.WIDE {
      IndentHasNoTab(column - E.WIDE, dle);
    }
  }

  lemma CharacterHasNoTab(l: E.Line, c: Byte, dle: bool)
    requires TAB !in l.acc
    ensures TAB !in E.Character(l, c, dle).acc
  {
    hide E.Indent;
    IndentHasNoTab(l.column, dle);
  }

  lemma {:induction false} ChoppedHasNoTab(line: seq<Byte>, nul: bool)
    requires TAB !in line
    ensures TAB !in E.Chopped(line, nul).0 && TAB !in E.Chopped(line, nul).1
    decreases |line|
  {
    if |line| > E.PerBlock(nul) {
      ChoppedHasNoTab(line[E.PerBlock(nul) - 1..], nul);
    }
  }

  lemma WriteLineHasNoTab(e: E.Encoding, nul: bool)
    requires e.address < E.BLOCK && TAB !in e.line.acc && TAB !in e.out
    ensures TAB !in E.WriteLine(e, nul).out
  {
    hide E.Chopped;
    ChoppedHasNoTab(e.line.acc + [CR], nul);
  }

  lemma {:induction false} FeedHasNoTab(s: seq<Byte>, dle: bool, nul: bool)
    ensures var e := E.Feed(E.Start(), s, dle, nul); TAB !in e.line.acc && TAB !in e.out
  {
    if s != [] {
      hide E.WriteLine, E.Character;
      FeedHasNoTab(Front(s), dle, nul);
      var e := E.Feed(E.Start(), Front(s), dle, nul);
      WriteLineHasNoTab(e, nul);
      WroteLine(e, nul);
      CharacterHasNoTab(e.line, Last(s), dle);
    }
  }

  lemma EncodedHasNoTab(s: seq<Byte>, dle: bool, nul: bool)
    ensures TAB !in E.Encode(s, dle, nul)
  {
    hide E.WriteLine, E.Feed;
    FeedHasNoTab(s, dle, nul);
    WriteLineHasNoTab(E.Feed(E.Start(), s, dle, nul), nul);
  }

  // ---------------------------------------------------------------- theorems

  // Encoding a text and decoding what comes out, in any pieces, gives its normal form.
  lemma RoundTrip(s: seq<Byte>, dle: bool, nul: bool, pieces: seq<seq<Byte>>)
    requires Clean(s) && LinesFit(s, dle, nul) && Joined(pieces) == E.Encode(s, dle, nul)
    ensures D.Chunks(D.FRESH, pieces, false).decoding.out == Normal(s)
  {
    EncodedHeader(s, dle, nul);
    ChunksDoNotMatter(pieces, false);
    EncodedDecodes(s, dle, nul);
  }

  // With tabs on, it does so up to the expansion of tabs.
  lemma RoundTripWithTabs(s: seq<Byte>, dle: bool, nul: bool, pieces: seq<seq<Byte>>)
    requires Clean(s) && LinesFit(s, dle, nul) && Joined(pieces) == E.Encode(s, dle, nul)
    ensures Expanded(D.Chunks(D.FRESH, pieces, true).decoding.out) == Normal(s) == Expanded(Normal(s))
  {
    EncodedHeader(s, dle, nul);
    ChunksDoNotMatter(pieces, true);
    EncodedDecodes(s, dle, nul);
    EncodedHasNoTab(s, dle, nul);
    TabsAgree(D.NOTHING, D.NOTHING, E.Encode(s, dle, nul));
    NormalPlain(s);
  }
}
