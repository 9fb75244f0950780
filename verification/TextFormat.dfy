/**
 Text as the codec sees it: lines, tab stops, and the normal form a text has after it
 has been encoded and decoded.
 */
module TextFormat {
  import opened Bytes

  const TAB: Byte := 9
  const NL: Byte := 10
  const CR: Byte := 13
  const DLE: Byte := 16
  const SPACE: Byte := 32

  function Spaces(n: nat): (r: seq<Byte>)
    ensures |r| == n && forall i: nat | i < n :: r[i] == SPACE
  {
    seq(n, i => SPACE)
  }

  // isprint() and isspace() of the C locale
  predicate IsPrint(c: Byte) {
    32 <= c <= 126
  }

  predicate IsSpace(c: Byte) {
    9 <= c <= 13 || c == SPACE
  }

  function NextStop(column: nat): nat {
    (column + 8) / 8 * 8
  }

  function Front<T>(s: seq<T>): seq<T>
    requires s != []
  {
    s[..|s| - 1]
  }

  function Last<T>(s: seq<T>): T
    requires s != []
  {
    s[|s| - 1]
  }

  // Where the next character goes.
  function Column(s: seq<Byte>): nat {
    if s == [] || Last(s) == NL then 0
    else if Last(s) == TAB then NextStop(Column(Front(s)))
    else Column(Front(s)) + 1
  }

  // Tabs turned into spaces.
  function Expanded(s: seq<Byte>): seq<Byte> {
    if s == [] then []
    else if Last(s) == TAB then
      Expanded(Front(s)) + Spaces(NextStop(Column(Front(s))) - Column(Front(s)))
    else Expanded(Front(s)) + [Last(s)]
  }

  // The bytes after the last newline.
  function LastLine(s: seq<Byte>): seq<Byte> {
    if s == [] || Last(s) == NL then [] else LastLine(Front(s)) + [Last(s)]
  }

  predicate White(c: Byte) {
    c == SPACE || c == TAB
  }

  predicate Blank(line: seq<Byte>) {
    forall i: nat | i < |line| :: White(line[i])
  }

  // Whitespace-only lines are emptied, all others have their tabs expanded.
  function NormalLine(line: seq<Byte>): seq<Byte> {
    if Blank(line) then [] else Expanded(line)
  }

  // All complete lines of s.
  function NormalLines(s: seq<Byte>): seq<Byte> {
    if s == [] then []
    else if Last(s) == NL then NormalLines(Front(s)) + NormalLine(LastLine(Front(s))) + [NL]
    else NormalLines(Front(s))
  }

  // And a last one without a newline gets one, unless it is blank.
  function Normal(s: seq<Byte>): seq<Byte> {
    NormalLines(s) + if Blank(LastLine(s)) then [] else NormalLine(LastLine(s)) + [NL]
  }

  // Tab, newline and printable characters.
  predicate Clean(s: seq<Byte>) {
    forall i: nat | i < |s| :: s[i] == TAB || s[i] == NL || IsPrint(s[i])
  }

  // Tab stops are eight columns apart.
  lemma NextStopIs(column: nat)
    ensures NextStop(column) % 8 == 0 && column < NextStop(column) <= column + 8
  {
  }

  lemma StopReached(start: nat, column: nat)
    requires start < column <= NextStop(start)
    ensures column % 8 == 0 <==> column == NextStop(start)
  {
  }

  lemma {:induction false} ColumnSpaces(s: seq<Byte>, n: nat)
    ensures Column(s + Spaces(n)) == Column(s) + n
  {
    if n == 0 {
      assert s + Spaces(0) == s;
    } else {
      ColumnSpaces(s, n - 1);
      assert Front(s + Spaces(n)) == s + Spaces(n - 1) && Last(s + Spaces(n)) == SPACE;
    }
  }

  lemma ColumnMore(s: seq<Byte>, c: Byte)
    ensures Column(s + [c]) == if c == NL then 0 else if c == TAB then NextStop(Column(s)) else Column(s) + 1
  {
    hide NextStop;
    Snoc(s, c);
  }

  lemma ExpandedSnoc(s: seq<Byte>, c: Byte)
    ensures Expanded(s + [c]) == Expanded(s) + if c == TAB then Spaces(NextStop(Column(s)) - Column(s)) else [c]
  {
    hide Column, NextStop;
    Snoc(s, c);
  }

  // Expanding tabs leaves everything in its column.
  lemma {:induction false} ColumnExpanded(s: seq<Byte>)
    ensures Column(Expanded(s)) == Column(s)
  {
    if s != [] {
      hide Column, Expanded, NextStop;
      var f, c := Front(s), Last(s);
      assert s == f + [c];
      ColumnExpanded(f);
      ColumnMore(f, c);
      ExpandedSnoc(f, c);
      if c == TAB {
        NextStopIs(Column(f));
        ColumnSpaces(Expanded(f), NextStop(Column(f)) - Column(f));
      } else {
        ColumnMore(Expanded(f), c);
      }
    }
  }

  // A tab becomes from one to eight spaces, and what follows it stands at a column that
  // is a multiple of eight.
  lemma TabStands(s: seq<Byte>)
    ensures var x, y := Expanded(s), Expanded(s + [TAB]);
      && |x| < |y| <= |x| + 8 && x <= y && (forall i: nat | |x| <= i < |y| :: y[i] == SPACE)
      && Column(y) % 8 == 0 && Column(y) == Column(x) + (|y| - |x|)
  {
    hide Column, NextStop;
    Snoc(s, TAB);
    NextStopIs(Column(s));
    ColumnExpanded(s);
    ColumnSpaces(Expanded(s), NextStop(Column(s)) - Column(s));
  }

  // Without tabs the column is how many bytes the line has.
  lemma {:induction false} ColumnPlain(s: seq<Byte>)
    requires TAB !in s
    ensures Column(s) == |LastLine(s)|
  {
    if s != [] && Last(s) != NL {
      ColumnPlain(Front(s));
    }
  }

  lemma Snoc<T>(s: seq<T>, c: T)
    ensures Front(s + [c]) == s && Last(s + [c]) == c
  {
  }

  lemma {:induction false} LastLineClean(s: seq<Byte>)
    requires Clean(s)
    ensures Clean(LastLine(s)) && NL !in LastLine(s)
  {
    if s != [] && Last(s) != NL {
      assert forall i: nat | i < |Front(s)| :: Front(s)[i] == s[i];
      LastLineClean(Front(s));
    }
  }

  lemma {:induction false} NoTabs(s: seq<Byte>)
    ensures TAB !in Expanded(s)
  {
    if s != [] {
      NoTabs(Front(s));
    }
  }

  // Nothing to expand.
  lemma {:induction false} ExpandedPlain(s: seq<Byte>)
    requires TAB !in s
    ensures Expanded(s) == s
  {
    if s != [] {
      hide Column, NextStop, Expanded;
      var f, c := Front(s), Last(s);
      assert s == f + [c] && c != TAB;
      ExpandedPlain(f);
      ExpandedSnoc(f, c);
    }
  }

  lemma {:induction false} NormalLinesPlain(s: seq<Byte>)
    ensures TAB !in NormalLines(s)
  {
    if s != [] {
      NormalLinesPlain(Front(s));
      NoTabs(LastLine(Front(s)));
    }
  }

  // The normal form is expanded already.
  lemma NormalPlain(s: seq<Byte>)
    ensures TAB !in Normal(s) && Expanded(Normal(s)) == Normal(s)
  {
    NormalLinesPlain(s);
    NoTabs(LastLine(s));
    ExpandedPlain(Normal(s));
  }

  lemma {:induction false} ExpandedLine(line: seq<Byte>)
    requires NL !in line
    ensures NL !in Expanded(line) && (!Blank(line) ==> !Blank(Expanded(line)))
  {
    if line != [] {
      var f, c := Front(line), Last(line);
      ExpandedLine(f);
      assert line == f + [c];
      if !Blank(f) {
        var i: nat :| i < |Expanded(f)| && !White(Expanded(f)[i]);
        assert Expanded(line)[i] == Expanded(f)[i];
      } else if !White(c) {
        assert Expanded(line)[|Expanded(f)|] == c;
      }
    }
  }

  lemma NormalLineTwice(line: seq<Byte>)
    requires NL !in line
    ensures NL !in NormalLine(line) && NormalLine(NormalLine(line)) == NormalLine(line)
  {
    hide Expanded;
    ExpandedLine(line);
    NoTabs(line);
    ExpandedPlain(NormalLine(line));
  }

  lemma {:induction false} LastLinePlain(s: seq<Byte>)
    ensures NL !in LastLine(s)
  {
    if s != [] && Last(s) != NL {
      LastLinePlain(Front(s));
    }
  }

  // A line begun after complete ones.
  lemma {:induction false} LineBegun(s: seq<Byte>, line: seq<Byte>)
    requires (s == [] || Last(s) == NL) && NL !in line
    ensures NormalLines(s + line) == NormalLines(s) && LastLine(s + line) == line
    decreases |line|
  {
    if line == [] {
      assert s + line == s;
    } else {
      hide NormalLine;
      assert Front(s + line) == s + Front(line) && Last(s + line) == Last(line);
      LineBegun(s, Front(line));
      assert line == Front(line) + [Last(line)];
    }
  }

  // One more line in its normal form.
  lemma NormalLineMore(s: seq<Byte>, line: seq<Byte>)
    requires (s == [] || Last(s) == NL) && NL !in line && NormalLines(s) == s && NormalLine(line) == line
    ensures var t := s + line + [NL]; NormalLines(t) == t && Last(t) == NL
  {
    hide NormalLine;
    LineBegun(s, line);
    Snoc(s + line, NL);
  }

  lemma {:induction false} NormalLinesTwice(s: seq<Byte>)
    ensures var t := NormalLines(s); NormalLines(t) == t && (t == [] || Last(t) == NL)
  {
    if s != [] {
      hide NormalLine, LastLine;
      NormalLinesTwice(Front(s));
      if Last(s) == NL {
        LastLinePlain(Front(s));
        NormalLineTwice(LastLine(Front(s)));
        NormalLineMore(NormalLines(Front(s)), NormalLine(LastLine(Front(s))));
      }
    }
  }

  // The normal form is its own.
  lemma NormalTwice(s: seq<Byte>)
    ensures Normal(Normal(s)) == Normal(s)
  {
    hide NormalLine, NormalLines;
    var t := NormalLines(s);
    NormalLinesTwice(s);
    LastLinePlain(s);
    if Blank(LastLine(s)) {
      assert Normal(s) == t + [] == t;
    } else {
      NormalLineTwice(LastLine(s));
      NormalLineMore(t, NormalLine(LastLine(s)));
      assert Normal(s) == t + NormalLine(LastLine(s)) + [NL];
    }
    assert LastLine(Normal(s)) == [];
    assert Normal(s) + [] == Normal(s);
  }

  lemma {:induction false} ExpandedAppend(s: seq<Byte>, t: seq<Byte>)
    requires TAB !in t
    ensures Expanded(s + t) == Expanded(s) + t
    decreases |t|
  {
    if t == [] {
      assert s + t == s;
    } else {
      assert Front(s + t) == s + Front(t) && Last(s + t) == Last(t);
      ExpandedAppend(s, Front(t));
      assert t == Front(t) + [Last(t)];
    }
  }
}
