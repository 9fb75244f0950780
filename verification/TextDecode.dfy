/**
 Decoding p-System text: NULs dropped, DLE pairs and carriage returns turned back into
 indentation and newlines.
 */
module TextDecode {
  import opened Bytes
  import opened TextFormat

  const HEADER := 1024

  datatype Decoding = Decoding(column: nat, nonWhite: bool, dleSeen: bool, out: seq<Byte>)

  const NOTHING := Decoding(0, false, false, [])

  // Indentation up to column from a tab stop: tabs while a whole one fits and more than
  // one column is left, then spaces.
  function Lead(ocol: nat, column: nat, tabs: bool): seq<Byte>
    requires ocol <= column
    decreases column - ocol
  {
    if tabs && ocol + 1 != column && NextStop(ocol) <= column then [TAB] + Lead(NextStop(ocol), column, tabs)
    else Spaces(column - ocol)
  }

  lemma LeadTab(out: seq<Byte>, ocol: nat, column: nat)
    requires ocol <= column && ocol + 1 != column && NextStop(ocol) <= column
    ensures out + Lead(ocol, column, true) == out + [TAB] + Lead(NextStop(ocol), column, true)
    ensures NextStop(ocol) > ocol
  {
  }

  lemma LeadSpaces(ocol: nat, column: nat, tabs: bool)
    requires ocol <= column && (tabs ==> ocol + 1 == column || NextStop(ocol) > column)
    ensures Lead(ocol, column, tabs) == Spaces(column - ocol)
  {
  }

  // A tab for every eight columns, then spaces.
  lemma {:induction false} LeadIs(ocol: nat, column: nat)
    requires ocol <= column && ocol % 8 == 0
    ensures Lead(ocol, column, false) == Spaces(column - ocol)
    ensures var r, n := Lead(ocol, column, true), (column - ocol) / 8;
      && |r| == n + (column - ocol) % 8
      && forall i: nat | i < |r| :: r[i] == if i < n then TAB else SPACE
    decreases column - ocol
  {
    NextStopIs(ocol);
    if ocol + 8 <= column {
      LeadIs(ocol + 8, column);
      assert NextStop(ocol) == ocol + 8;
      assert (column - ocol) / 8 == (column - (ocol + 8)) / 8 + 1;
    }
  }

  // A character that shows.
  function Normally(d: Decoding, c: Byte, tabs: bool): Decoding {
    Decoding(d.column + 1, true, d.dleSeen, (if d.nonWhite then d.out else d.out + Lead(0, d.column, tabs)) + [c])
  }

  // A character that is not the second of a DLE pair.
  function Plainly(d: Decoding, c: Byte, tabs: bool): Decoding {
    if c == 0 then d
    else if c == CR || c == NL then Decoding(0, false, d.dleSeen, d.out + [NL])
    else if c == DLE then d.(dleSeen := true)
    else Normally(d, c, tabs)
  }

  function Character(d: Decoding, c: Byte, tabs: bool): Decoding {
    if !d.dleSeen then Plainly(d, c, tabs)
    else
      var e := d.(dleSeen := false);
      if c < 32 then Plainly(Normally(e, DLE, tabs), c, tabs)
      else e.(column := d.column + (c - 32), out := if d.nonWhite then d.out + Spaces(c - 32) else d.out)
  }

  function Feed(d: Decoding, s: seq<Byte>, tabs: bool): Decoding {
    if s == [] then d else Character(Feed(d, Front(s), tabs), Last(s), tabs)
  }

  lemma {:induction false} FeedAppend(d: Decoding, s: seq<Byte>, t: seq<Byte>, tabs: bool)
    ensures Feed(d, s + t, tabs) == Feed(Feed(d, s, tabs), t, tabs)
    decreases |t|
  {
    if t == [] {
      assert s + t == s;
    } else {
      assert Front(s + t) == s + Front(t) && Last(s + t) == Last(t);
      FeedAppend(d, s, Front(t), tabs);
    }
  }

  lemma FeedOne(d: Decoding, c: Byte, tabs: bool)
    ensures Feed(d, [c], tabs) == Character(d, c, tabs)
  {
  }

  // Of input without NULs and DLEs only the returns are changed, into newlines.
  lemma {:induction false} PlainDecodes(s: seq<Byte>, tabs: bool)
    requires forall i: nat | i < |s| :: s[i] != 0 && s[i] != 16
    ensures var d := Feed(NOTHING, s, tabs);
      && !d.dleSeen && (d.nonWhite || d.column == 0)
      && |d.out| == |s| && forall i: nat | i < |s| :: d.out[i] == if s[i] == 13 then 10 else s[i]
  {
    if s != [] {
      PlainDecodes(Front(s), tabs);
      assert Lead(0, 0, tabs) == [];
    }
  }

  // A DLE before a control character stands for itself.
  lemma DleDecodes(d: Decoding, c: Byte, tabs: bool)
    requires !d.dleSeen && c < 32
    ensures var r, shown := Feed(d, [16, c], tabs), d.out + (if d.nonWhite then [] else Lead(0, d.column, tabs)) + [16];
      && r.dleSeen == (c == 16)
      && r.out == shown + if c == 0 || c == 16 then [] else if c == 13 || c == 10 then [10] else [c]
  {
    hide Lead;
    FeedOne(d, 16, tabs);
    assert Front([16, c]) == [16] && Feed(d, [16], tabs) == d.(dleSeen := true);
    assert d.out + [] == d.out;
    var shown := d.out + (if d.nonWhite then [] else Lead(0, d.column, tabs)) + [16];
    assert shown + [] == shown;
  }

  // ------------------------------------------------------------------ header

  predicate IsTextCharacter(c: Byte) {
    IsPrint(c) || IsSpace(c) || c == 16
  }

  // s without the NULs at its end.
  function Trimmed(s: seq<Byte>): seq<Byte> {
    if s == [] || Last(s) != 0 then s else Trimmed(Front(s))
  }

  predicate BeginsWithText(s: seq<Byte>) {
    forall j: nat | j < 16 && j < |s| :: IsTextCharacter(s[j])
  }

  // Text, by the look of its first sixteen characters.
  predicate LooksLikeText(s: seq<Byte>) {
    BeginsWithText(Trimmed(s))
  }

  // A byte other than NUL is at place j or behind it.
  predicate Followed(s: seq<Byte>, j: nat) {
    exists k: nat :: j <= k < |s| && s[k] != 0
  }

  lemma {:induction false} TrimmedIs(s: seq<Byte>)
    ensures Trimmed(s) <= s
    ensures forall j: nat | j < |s| :: j < |Trimmed(s)| <==> Followed(s, j)
  {
    if s != [] {
      if Last(s) == 0 {
        TrimmedIs(Front(s));
        forall j: nat | j < |s| ensures j < |Trimmed(s)| <==> Followed(s, j) {
          if Followed(s, j) {
            var k: nat :| j <= k < |s| && s[k] != 0;
            assert Front(s)[k] != 0 && j < |Front(s)|;
            assert Followed(Front(s), j);
          }
          if j < |Front(s)| && Followed(Front(s), j) {
            var k: nat :| j <= k < |Front(s)| && Front(s)[k] != 0;
            assert s[k] != 0;
          }
        }
      } else {
        assert s[|s| - 1] != 0;
      }
    }
  }

  lemma LooksIs(s: seq<Byte>)
    ensures LooksLikeText(s) <==> forall j: nat ::
      j < 16 && j < |s| && Followed(s, j) ==>
        32 <= s[j] <= 126 || 9 <= s[j] <= 13 || s[j] == 16
  {
    TrimmedIs(s);
    var t := Trimmed(s);
    hide Trimmed;
    assert |t| <= |s| && forall j: nat | j < |t| :: t[j] == s[j];
    if !LooksLikeText(s) {
      var j: nat :| j < 16 && j < |t| && !IsTextCharacter(t[j]);
      assert Followed(s, j);
    }
  }

  // The bytes still to be skipped, and what has been decoded.
  datatype Filter = Filter(startOfFile: nat, decoding: Decoding)

  const FRESH := Filter(HEADER, NOTHING)

  function Skip(f: Filter, data: seq<Byte>): nat {
    if f.startOfFile == HEADER && LooksLikeText(data) then 0 else f.startOfFile
  }

  // write_inner()
  function Chunk(f: Filter, data: seq<Byte>, tabs: bool): Filter {
    var skip := Skip(f, data);
    if skip >= |data| then Filter(skip - |data|, f.decoding)
    else Filter(0, Feed(f.decoding, data[skip..], tabs))
  }

  function Chunks(f: Filter, pieces: seq<seq<Byte>>, tabs: bool): Filter
    decreases |pieces|
  {
    if pieces == [] then f else Chunks(Chunk(f, pieces[0], tabs), pieces[1..], tabs)
  }

  class TextDecoder {
    var column: nat
    var nonWhite: bool
    var startOfFile: nat
    var dleSeen: bool
    const useTabs: bool
    // what has been written deeper
    var out: seq<Byte>

    function Now(): Filter
      reads this
    {
      Filter(startOfFile, Decoding(column, nonWhite, dleSeen, out))
    }

    constructor (tabs: bool)
      ensures useTabs == tabs && Now() == FRESH
    {
      useTabs := tabs;
      column, nonWhite, startOfFile, dleSeen, out := 0, false, HEADER, false, [];
    }

    static method IsTextBuffer(buffer: seq<Byte>) returns (r: bool)
      ensures r == LooksLikeText(buffer)
      // of the first sixteen, all that have a byte other than NUL at or behind them
      ensures r <==> forall j: nat ::
        j < 16 && j < |buffer| && Followed(buffer, j) ==>
          32 <= buffer[j] <= 126 || 9 <= buffer[j] <= 13 || buffer[j] == 16
    {
      LooksIs(buffer);
      var size := |buffer|;
      assert buffer[..size] == buffer;
      while size > 0 && buffer[size - 1] == 0
        invariant size <= |buffer| && Trimmed(buffer[..size]) == Trimmed(buffer)
      {
        assert Front(buffer[..size]) == buffer[..size - 1];
        size := size - 1;
      }
      ghost var t := buffer[..size];
      assert Trimmed(buffer) == t;
      hide Trimmed, IsTextCharacter;
      var j := 0;
      while j < 16 && j < size
        invariant j <= 16 && j <= size
        invariant forall i: nat | i < j :: IsTextCharacter(t[i])
      {
        if !IsTextCharacter(buffer[j]) {
          assert !IsTextCharacter(t[j]);
          return false;
        }
        j := j + 1;
      }
      return true;
    }

    // A character that shows, after the indentation when it is the first of its line.
    method PutNormal(c: Byte)
      modifies this`column, this`nonWhite, this`out
      ensures Now().decoding == Normally(old(Now()).decoding, c, useTabs)
    {
      if !nonWhite {
        PutLead();
        nonWhite := true;
      }
      out := out + [c];
      column := column + 1;
    }

    method PutLead()
      modifies this`out
      ensures out == old(out) + Lead(0, column, useTabs)
    {
      hide Lead, NextStop;
      var ocol := 0;
      if useTabs {
        while true
          invariant ocol <= column && out + Lead(ocol, column, useTabs) == old(out) + Lead(0, column, useTabs)
          decreases column - ocol
        {
          if ocol + 1 == column {
            break;
          }
          var ocol2 := NextStop(ocol);
          if ocol2 > column {
            break;
          }
          LeadTab(out, ocol, column);
          out := out + [TAB];
          ocol := ocol2;
        }
      }
      LeadSpaces(ocol, column, useTabs);
      ghost var before, start := out, ocol;
      while ocol < column
        invariant start <= ocol <= column && out == before + Spaces(ocol - start)
      {
        out := out + [SPACE];
        ocol := ocol + 1;
      }
    }

    method WriteInner(data: seq<Byte>)
      modifies this
      ensures Now() == Chunk(old(Now()), data, useTabs)
    {
      if startOfFile == HEADER {
        var text := IsTextBuffer(data);
        if text {
          startOfFile := 0;
        }
      }
      var at := 0;
      while at < |data| && startOfFile > 0
        invariant at <= |data| && startOfFile + at == Skip(old(Now()), data)
        invariant Now().decoding == old(Now()).decoding
      {
        at := at + 1;
        startOfFile := startOfFile - 1;
      }
      if startOfFile == 0 {
        Process(data[at..]);
        assert data[|data|..] == [];
      }
    }

    // The text after any header.
    method Process(data: seq<Byte>)
      modifies this`column, this`nonWhite, this`dleSeen, this`out
      ensures Now().decoding == Feed(old(Now()).decoding, data, useTabs)
    {
      var at := 0;
      while at < |data|
        invariant at <= |data| && Now().decoding == Feed(old(Now()).decoding, data[..at], useTabs)
      {
        assert Front(data[..at + 1]) == data[..at] && Last(data[..at + 1]) == data[at];
        PutCharacter(data[at]);
        at := at + 1;
      }
      assert data[..|data|] == data;
    }

    method PutCharacter(c: Byte)
      modifies this`column, this`nonWhite, this`dleSeen, this`out
      ensures Now().decoding == Character(old(Now()).decoding, c, useTabs)
    {
      if dleSeen {
        dleSeen := false;
        if c < 32 {
          // the DLE stood for itself; c is looked at once more
          PutNormal(DLE);
          PutPlain(c);
          return;
        }
        if nonWhite {
          ghost var before := out;
          for x := 0 to c - 32
            invariant out == before + Spaces(x)
            invariant column == old(column) && nonWhite && !dleSeen
          {
            out := out + [SPACE];
          }
        }
        column := column + (c - 32);
      } else {
        PutPlain(c);
      }
    }

    method PutPlain(c: Byte)
      modifies this`column, this`nonWhite, this`dleSeen, this`out
      ensures Now().decoding == Plainly(old(Now()).decoding, c, useTabs)
    {
      if c == 0 {
      } else if c == CR || c == NL {
        out := out + [NL];
        column := 0;
        nonWhite := false;
      } else if c == DLE {
        dleSeen := true;
      } else {
        PutNormal(c);
      }
    }
  }
}
