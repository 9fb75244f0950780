/**
 Encoding text for the p-System: indentation as DLE pairs, carriage returns, and lines
 kept whole within blocks of 1024 bytes.
 */
module TextEncode {
  import opened Bytes
  import opened TextFormat

  const BLOCK := 1024
  const WIDE := 223

  // ------------------------------------------------------------------ lines

  datatype Line = Line(column: nat, nonWhite: bool, acc: seq<Byte>)

  const NO_LINE := Line(0, false, [])

  // What remains of the indentation once it is less than the widest DLE pair.
  function ShortIndent(n: nat, dle: bool): seq<Byte>
    requires dle ==> n < WIDE
  {
    if n <= 2 || !dle then Spaces(n) else [DLE, n + 32]
  }

  function Indent(column: nat, dle: bool): seq<Byte>
    decreases column
  {
    if dle && column >= WIDE then [DLE, 255] + Indent(column - WIDE, dle) else ShortIndent(column, dle)
  }

  lemma WideIndent(acc: seq<Byte>, n: nat)
    requires n >= WIDE
    ensures acc + Indent(n, true) == acc + [DLE] + [255] + Indent(n - WIDE, true)
  {
    assert [DLE, 255] == [DLE] + [255];
  }

  lemma IndentIsShort(n: nat, dle: bool)
    requires dle ==> n < WIDE
    ensures Indent(n, dle) == ShortIndent(n, dle)
  {
  }

  function Hex(n: nat): Byte
    requires n < 16
  {
    if n < 10 then 48 + n else 55 + n
  }

  // A character as it is, or its code.
  function Shown(c: Byte): seq<Byte> {
    if IsPrint(c) then [c] else [92, 120, Hex(c / 16), Hex(c % 16)]
  }

  // line_character()
  function Character(l: Line, c: Byte, dle: bool): Line {
    if c == 0 || c == DLE then l
    else if c == TAB then
      var column := NextStop(l.column);
      Line(column, l.nonWhite, if l.nonWhite then l.acc + Spaces(column - l.column) else l.acc)
    else if c == SPACE then Line(l.column + 1, l.nonWhite, if l.nonWhite then l.acc + [SPACE] else l.acc)
    else Line(l.column + 1, true, (if l.nonWhite then l.acc else l.acc + Indent(l.column, dle)) + Shown(c))
  }

  function HexValue(b: Byte): int {
    if 48 <= b <= 57 then b - 48 else if 65 <= b <= 70 then b - 55 else -1
  }

  // A character that cannot be printed becomes a backslash, an x and two digits.
  lemma ShownIs(c: Byte)
    ensures var r := Shown(c);
      if 32 <= c <= 126 then r == [c]
      else
        && |r| == 4 && r[0] == 92 && r[1] == 120
        && HexValue(r[2]) >= 0 && HexValue(r[3]) >= 0 && 16 * HexValue(r[2]) + HexValue(r[3]) == c
  {
  }

  // The indentation in pairs: of 223 columns while there are as many, and one for the rest,
  // unless two spaces or less will do.
  lemma {:induction false} IndentIs(column: nat)
    ensures Indent(column, false) == Spaces(column)
    ensures var r, n, k := Indent(column, true), column / 223, column % 223;
      && |r| >= 2 * n && (forall i: nat | i < 2 * n :: r[i] == if i % 2 == 0 then 16 else 255)
      && r[2 * n..] == if k <= 2 then Spaces(k) else [16, k + 32]
    decreases column
  {
    if column >= 223 {
      IndentIs(column - 223);
      assert column / 223 == (column - 223) / 223 + 1 && column % 223 == (column - 223) % 223;
      var q := Indent(column - 223, true);
      hide Indent;
      WideIndent([], column);
      assert [] + Indent(column, true) == Indent(column, true) && [] + [DLE] + [255] + q == [DLE, 255] + q;
      PairBefore(q, (column - 223) / 223);
    }
  }

  lemma PairBefore(q: seq<Byte>, n: nat)
    requires |q| >= 2 * n && forall i: nat | i < 2 * n :: q[i] == if i % 2 == 0 then 16 else 255
    ensures var r: seq<Byte> := [16, 255] + q;
      (forall i: nat | i < 2 * (n + 1) :: r[i] == if i % 2 == 0 then 16 else 255) && r[2 * (n + 1)..] == q[2 * n..]
  {
    var r: seq<Byte> := [16, 255] + q;
    forall i: nat | i < 2 * (n + 1) ensures r[i] == if i % 2 == 0 then 16 else 255 {
      if i >= 2 {
        assert r[i] == q[i - 2];
      }
    }
  }

  // What one character does to a line: NUL and DLE nothing, white space before any other
  // character only counts columns, and that other character comes after the indentation.
  lemma CharacterIs(l: Line, c: Byte, dle: bool)
    ensures var r := Character(l, c, dle);
      && (c == 0 || c == 16 ==> r == l)
      && (c == 9 ==> r.column % 8 == 0 && l.column < r.column <= l.column + 8 && r.nonWhite == l.nonWhite
                     && r.acc == l.acc + Spaces(if l.nonWhite then r.column - l.column else 0))
      && (c == 32 ==> r == Line(l.column + 1, l.nonWhite, l.acc + Spaces(if l.nonWhite then 1 else 0)))
      && (c != 0 && c != 16 && c != 9 && c != 32 ==>
            r == Line(l.column + 1, true, l.acc + (if l.nonWhite then [] else Indent(l.column, dle)) + Shown(c)))
  {
    hide Indent, Shown;
    NextStopIs(l.column);
    assert [] + Spaces(0) == [] && Spaces(1) == [SPACE];
    assert l.acc + Spaces(0) == l.acc && l.acc + [] == l.acc;
  }

  // A line of input, so far.
  function Scan(p: seq<Byte>, dle: bool): Line {
    if p == [] then NO_LINE else Character(Scan(Front(p), dle), Last(p), dle)
  }

  // ------------------------------------------------------------------ blocks

  datatype Encoding = Encoding(address: nat, line: Line, out: seq<Byte>)

  function PerBlock(nul: bool): nat {
    if nul then 1023 else 1024
  }

  // An over-long line at the start of a block: whole blocks of it, and the rest.
  function Chopped(line: seq<Byte>, nul: bool): (r: (seq<Byte>, seq<Byte>))
    ensures |r.1| <= PerBlock(nul) && (line != [] ==> r.1 != [])
    decreases |line|
  {
    if |line| <= PerBlock(nul) then ([], line)
    else
      var n := PerBlock(nul) - 1;
      var rest := Chopped(line[n..], nul);
      (line[..n] + [CR] + (if nul then [0] else []) + rest.0, rest.1)
  }

  // write_one_line()
  function WriteLine(e: Encoding, nul: bool): Encoding
    requires e.address < BLOCK
  {
    var line := e.line.acc + [CR];
    var pad := if e.address + |line| > PerBlock(nul) then Zeros(BLOCK - e.address) else [];
    var address := if pad == [] then e.address else 0;
    var chopped := if address == 0 then Chopped(line, nul) else ([], line);
    Encoding((address + |chopped.1|) % BLOCK, NO_LINE, e.out + pad + chopped.0 + chopped.1)
  }

  // A line written piece by piece.
  lemma WriteLineIs(e: Encoding, nul: bool, pad: seq<Byte>, start: nat, chopped: (seq<Byte>, seq<Byte>), out: seq<Byte>)
    requires e.address < BLOCK
    requires pad == if e.address + |e.line.acc + [CR]| > PerBlock(nul) then Zeros(BLOCK - e.address) else []
    requires start == if pad == [] then e.address else 0
    requires chopped == if start == 0 then Chopped(e.line.acc + [CR], nul) else ([], e.line.acc + [CR])
    requires out == e.out + pad + chopped.0 + chopped.1
    ensures WriteLine(e, nul) == Encoding((start + |chopped.1|) % BLOCK, NO_LINE, out)
    ensures 0 < start + |chopped.1| <= PerBlock(nul)
  {
    hide Chopped;
  }

  function Feed(e: Encoding, s: seq<Byte>, dle: bool, nul: bool): (r: Encoding)
    requires e.address < BLOCK
    ensures r.address < BLOCK
  {
    if s == [] then e
    else
      var before := Feed(e, Front(s), dle, nul);
      if Last(s) == NL || Last(s) == CR then WriteLine(before, nul)
      else before.(line := Character(before.line, Last(s), dle))
  }

  function Start(): Encoding {
    Encoding(0, NO_LINE, Zeros(BLOCK))
  }

  // The last line, and zeros up to the end of the block.
  function Closed(e: Encoding, nul: bool): seq<Byte>
    requires e.address < BLOCK
  {
    var last := if e.line.acc != [] then WriteLine(e, nul) else e;
    last.out + Zeros((BLOCK - last.address) % BLOCK)
  }

  // A line goes where it fits, after NULs up to the next block when it does not, and in
  // pieces when it fits no block; a block has 1024 bytes, one of them kept for a NUL.
  lemma LineGoes(e: Encoding, nul: bool)
    requires e.address < 1024
    ensures var line, r, room := e.line.acc + [CR], WriteLine(e, nul), if nul then 1023 else 1024;
      var padded := if e.address + |line| <= room then e.out else e.out + Zeros(1024 - e.address);
      && r.line == Line(0, false, [])
      && (|line| <= room ==>
            && r.out == padded + line
            && r.address == ((if e.address + |line| <= room then e.address else 0) + |line|) % 1024)
      && (|line| > room ==>
            padded + line[..room - 1] + [CR] + (if nul then [0] else []) + Chopped(line[room - 1..], nul).0
              + Chopped(line[room - 1..], nul).1 == r.out)
  {
    var line, room := e.line.acc + [CR], if nul then 1023 else 1024;
    if |line| > room {
      ChoppedIs(line, nul);
      hide Chopped;
      var rest, first := Chopped(line[room - 1..], nul), line[..room - 1] + [CR] + (if nul then [0] else []);
      var padded := e.out + Zeros(1024 - e.address);
      assert padded + (first + rest.0) + rest.1 == padded + line[..room - 1] + [CR]
        + (if nul then [0] else []) + rest.0 + rest.1;
    } else {
      ChoppedIs(line, nul);
      hide Chopped;
      assert e.out + [] + [] + line == e.out + line;
      assert e.out + Zeros(1024 - e.address) + [] + line == e.out + Zeros(1024 - e.address) + line;
    }
  }

  lemma ChoppedIs(line: seq<Byte>, nul: bool)
    ensures var room := if nul then 1023 else 1024;
      Chopped(line, nul)
        == if |line| <= room then ([], line)
           else
             var rest := Chopped(line[room - 1..], nul);
             (line[..room - 1] + [CR] + (if nul then [0] else []) + rest.0, rest.1)
  {
  }

  // All of a text.
  function Encode(s: seq<Byte>, dle: bool, nul: bool): seq<Byte> {
    Closed(Feed(Start(), s, dle, nul), nul)
  }

  // Newlines and returns end a line, and all other characters go on with it.
  lemma FeedMore(e: Encoding, s: seq<Byte>, c: Byte, dle: bool, nul: bool)
    requires e.address < BLOCK
    ensures var before := Feed(e, s, dle, nul);
      Feed(e, s + [c], dle, nul)
        == if c == 10 || c == 13 then WriteLine(before, nul) else before.(line := Character(before.line, c, dle))
  {
    hide WriteLine, Character;
    Snoc(s, c);
  }

  // However the text comes in pieces.
  lemma {:induction false} FeedAppend(e: Encoding, s: seq<Byte>, t: seq<Byte>, dle: bool, nul: bool)
    requires e.address < BLOCK
    ensures Feed(e, s + t, dle, nul) == Feed(Feed(e, s, dle, nul), t, dle, nul)
    decreases |t|
  {
    if t == [] {
      assert s + t == s;
    } else {
      assert Front(s + t) == s + Front(t) && Last(s + t) == Last(t);
      FeedAppend(e, s, Front(t), dle, nul);
    }
  }

  // ------------------------------------------------------------------ filter

  class TextEncoder {
    var lineNumber: nat
    var address: nat
    var column: nat
    var nonWhite: bool
    const useDle: bool
    const nulGuarantee: bool
    var lineAccumulator: seq<Byte>
    // what has been written deeper
    var out: seq<Byte>

    function Now(): Encoding
      reads this
    {
      Encoding(address, Line(column, nonWhite, lineAccumulator), out)
    }

    constructor (dle: bool, nul: bool)
      ensures useDle == dle && nulGuarantee == nul && Now() == Start()
    {
      useDle, nulGuarantee := dle, nul;
      lineNumber, address, column, nonWhite, lineAccumulator := 1, 0, 0, false, [];
      out := [];
      new;
      for j := 0 to BLOCK
        invariant out == Zeros(j) && Now() == Start().(out := out)
      {
        out := out + [0];
      }
    }

    method LineCharacter(c: Byte)
      modifies this`column, this`nonWhite, this`lineAccumulator
      ensures Now() == old(Now()).(line := Character(old(Now()).line, c, useDle))
      // a tab goes on to the next multiple of eight
      ensures c == 9 ==>
        && column % 8 == 0 && old(column) < column <= old(column) + 8 && nonWhite == old(nonWhite)
        && lineAccumulator == old(lineAccumulator) + Spaces(if nonWhite then column - old(column) else 0)
    {
      NextStopIs(column);
      if c == 0 {
      } else if c == TAB {
        if nonWhite {
          PutTab();
        } else {
          column := NextStop(column);
        }
      } else if c == DLE {
      } else if c == SPACE {
        if nonWhite {
          lineAccumulator := lineAccumulator + [SPACE];
        }
        column := column + 1;
      } else {
        if !nonWhite {
          PutIndent();
          nonWhite := true;
        }
        lineAccumulator := lineAccumulator + Shown(c);
        column := column + 1;
      }
    }

    // Spaces up to the next tab stop.
    method PutTab()
      modifies this`column, this`lineAccumulator
      ensures column == NextStop(old(column))
      ensures column % 8 == 0 && old(column) < column <= old(column) + 8
      ensures lineAccumulator == old(lineAccumulator) + Spaces(column - old(column))
    {
      hide NextStop;
      NextStopIs(column);
      while true
        invariant old(column) <= column < NextStop(old(column))
        invariant lineAccumulator == old(lineAccumulator) + Spaces(column - old(column))
        decreases NextStop(old(column)) - column
      {
        lineAccumulator := lineAccumulator + [SPACE];
        column := column + 1;
        StopReached(old(column), column);
        if column % 8 == 0 {
          break;
        }
      }
    }

    // The indentation of a line, before its first character that shows.
    method PutIndent()
      modifies this`lineAccumulator
      ensures lineAccumulator == old(lineAccumulator) + Indent(column, useDle)
    {
      hide Indent;
      var ocol := 0;
      if useDle {
        while ocol + WIDE <= column
          invariant ocol <= column
          invariant lineAccumulator + Indent(column - ocol, useDle) == old(lineAccumulator) + Indent(column, useDle)
        {
          WideIndent(lineAccumulator, column - ocol);
          lineAccumulator := lineAccumulator + [DLE];
          lineAccumulator := lineAccumulator + [255];
          ocol := ocol + WIDE;
        }
      }
      IndentIsShort(column - ocol, useDle);
      if column - ocol <= 2 {
        lineAccumulator := lineAccumulator + Spaces(column - ocol);
      } else if useDle {
        lineAccumulator := lineAccumulator + [DLE];
        lineAccumulator := lineAccumulator + [column - ocol + 32];
      } else {
        while ocol < column
          invariant ocol <= column && lineAccumulator == old(lineAccumulator) + Spaces(ocol)
        {
          lineAccumulator := lineAccumulator + [SPACE];
          ocol := ocol + 1;
        }
      }
    }

    method WriteOneLine()
      requires address < BLOCK
      modifies this
      ensures Now() == WriteLine(old(Now()), nulGuarantee)
    {
      hide Chopped, WriteLine;
      ghost var e := Now();
      var charactersPerBlock := if nulGuarantee then 1023 else 1024;
      lineAccumulator := lineAccumulator + [CR];
      var line := lineAccumulator;
      lineAccumulator := [];
      ghost var pad := [];
      if address + |line| > charactersPerBlock {
        PadBlock();
        pad := Zeros(BLOCK - e.address);
      }
      assert out == e.out + pad;
      ghost var start, chopped := address, ([], line);
      if address == 0 {
        chopped := Chopped(line, nulGuarantee);
        line := WriteChopped(line);
      }
      assert out == e.out + pad + chopped.0;
      out := out + line;
      WriteLineIs(e, nulGuarantee, pad, start, chopped, out);
      address := address + |line|;
      assert address > 0;
      assert address <= charactersPerBlock;
      address := address % BLOCK;
      lineNumber := lineNumber + 1;
      column := 0;
      nonWhite := false;
    }

    // NULs up to the next block, at least one.
    method PadBlock()
      requires address < BLOCK
      modifies this`address, this`out
      ensures address == 0 && out == old(out) + Zeros(BLOCK - old(address))
    {
      while true
        invariant old(address) <= address < BLOCK && out == old(out) + Zeros(address - old(address))
        decreases BLOCK - address
      {
        out := out + [0];
        address := address + 1;
        if address % BLOCK == 0 {
          address := 0;
          break;
        }
      }
    }

    // Blocks of an over-long line; the rest is returned.
    method WriteChopped(whole: seq<Byte>) returns (line: seq<Byte>)
      modifies this`out
      ensures line == Chopped(whole, nulGuarantee).1 && out == old(out) + Chopped(whole, nulGuarantee).0
    {
      var charactersPerBlock := PerBlock(nulGuarantee);
      line := whole;
      while |line| > charactersPerBlock
        invariant Chopped(line, nulGuarantee).1 == Chopped(whole, nulGuarantee).1
        invariant out + Chopped(line, nulGuarantee).0 == old(out) + Chopped(whole, nulGuarantee).0
      {
        out := out + line[..charactersPerBlock - 1];
        out := out + [CR];
        if nulGuarantee {
          out := out + [0];
        }
        line := line[charactersPerBlock - 1..];
      }
    }

    method WriteInner(data: seq<Byte>)
      requires address < BLOCK
      modifies this
      ensures Now() == Feed(old(Now()), data, useDle, nulGuarantee)
    {
      for j := 0 to |data|
        invariant address < BLOCK && Now() == Feed(old(Now()), data[..j], useDle, nulGuarantee)
      {
        var c := data[j];
        assert Front(data[..j + 1]) == data[..j] && Last(data[..j + 1]) == c;
        if c == NL || c == CR {
          WriteOneLine();
        } else {
          LineCharacter(c);
        }
      }
      assert data[..|data|] == data;
    }

    // The destructor.
    method Close()
      requires address < BLOCK
      modifies this
      ensures out == Closed(old(Now()), nulGuarantee)
    {
      if lineAccumulator != [] {
        WriteOneLine();
      }
      ghost var e := Now();
      while address % BLOCK != 0
        invariant e.address <= address <= BLOCK && (e.address == 0 ==> address == 0)
        invariant out == e.out + Zeros(address - e.address)
        decreases BLOCK - address
      {
        out := out + [0];
        address := address + 1;
      }
    }
  }
}
