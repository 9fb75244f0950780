/**
 Quoting a string for the shell, and how a shell reads it back (sections 2.2.1 to
 2.2.3 of the POSIX.1-2017 Shell Command Language).
 */
module QuoteShell {
  import opened Bytes

  datatype Mode = Single | Double

  // ---------------------------------------------------------------- reading

  datatype Reading = Unquoted | Within(mode: Mode)

  // Characters that stand for themselves outside quotes. An exclamation mark does not
  // do so in bash and csh, neither there nor within double quotes.
  predicate Plain(c: char) {
    c !in {'|', '&', ';', '<', '>', '(', ')', '$', '`', '\\', '"', '\'', ' ', '\t', '\n', '*', '?', '[', '#', '~',
             '=', '!'}
  }

  // The one word t is, or nothing.
  function Read(state: Reading, t: string): Option<string>
    decreases |t|
  {
    if t == "" then if state.Unquoted? then Some("") else None
    else match state {
      case Unquoted =>
        if t[0] == '\'' then Read(Within(Single), t[1..])
        else if t[0] == '"' then Read(Within(Double), t[1..])
        else if t[0] == '\\' then
          if |t| == 1 then None
          else if t[1] == '\n' then Read(state, t[2..])
          else Before(t[1], Read(state, t[2..]))
        else if Plain(t[0]) then Before(t[0], Read(state, t[1..]))
        else None
      case Within(Single) =>
        if t[0] == '\'' then Read(Unquoted, t[1..]) else Before(t[0], Read(state, t[1..]))
      case Within(Double) =>
        if t[0] == '"' then Read(Unquoted, t[1..])
        else if t[0] in {'$', '`', '!'} then None
        else if t[0] == '\\' then
          if |t| == 1 then None
          else if t[1] == '\n' then Read(state, t[2..])
          else if t[1] in {'$', '`', '"', '\\'} then Before(t[1], Read(state, t[2..]))
          else Before(t[0], Read(state, t[1..]))
        else Before(t[0], Read(state, t[1..]))
    }
  }

  function Before(c: char, rest: Option<string>): Option<string> {
    if rest.None? then None else Some([c] + rest.value)
  }

  function ReadWord(t: string): Option<string> {
    if t == "" then None else Read(Unquoted, t)
  }

  // ---------------------------------------------------------------- quoting

  // isspace() of the C locale
  predicate IsSpace(c: char) {
    c in {' ', '\t', '\n', '\r', '\U{B}', '\U{C}'}
  }

  // What makes the string need quotes.
  predicate Special(c: char) {
    || IsSpace(c)
    || c in {'!', '\'', '"', '#', '$', '&', '(', ')', '*', ':', ';', '<', '=', '>', '?', '[', '\\', ']', '^', '`',
             '{', '|', '}', '~'}
  }

  // The first character that needs quotes says which come first.
  function FirstMode(s: string): Option<Mode> {
    if s == "" then None
    else if Special(s[0]) then Some(if s[0] == '\'' then Double else Single)
    else FirstMode(s[1..])
  }

  function Switch(mode: Mode, c: char): Mode {
    match mode
    case Single => if c == '\'' then Double else Single
    case Double => if c == '!' then Single else Double
  }

  // What one character becomes.
  function Escaped(mode: Mode, c: char): string {
    match mode
    case Single => if c == '\'' then "'\"'" else [c]
    case Double => if c == '!' then "\"'!" else if c in {'\n', '"', '\\', '`', '$'} then ['\\', c] else [c]
  }

  function Mark(mode: Mode): char {
    if mode.Single? then '\'' else '"'
  }

  // The rest of the quoted string, its closing mark included.
  function Quoted(mode: Mode, s: string): string
    decreases |s|
  {
    if s == "" then [Mark(mode)] else Escaped(mode, s[0]) + Quoted(Switch(mode, s[0]), s[1..])
  }

  lemma QuotedNext(mode: Mode, s: string)
    requires s != ""
    ensures Quoted(mode, s) == Escaped(mode, s[0]) + Quoted(Switch(mode, s[0]), s[1..])
  {
    hide Escaped, Switch;
  }

  lemma QuotedEnd(mode: Mode)
    ensures Quoted(mode, "") == [Mark(mode)]
  {
  }

  function Result(s: string): string {
    var mode := FirstMode(s);
    if mode.None? then s else [Mark(mode.value)] + Quoted(mode.value, s)
  }

  // rcstring::quote_shell()
  method Quote(s: string) returns (r: string)
    ensures r == Result(s)
  {
    var needsQuoting := false;
    var mode := Single;
    var cp := 0;
    assert s[0..] == s;
    while cp < |s|
      invariant cp <= |s| && !needsQuoting && FirstMode(s[cp..]) == FirstMode(s)
    {
      assert s[cp..][1..] == s[cp + 1..];
      if Special(s[cp]) {
        mode := if s[cp] == '\'' then Double else Single;
        needsQuoting := true;
        break;
      }
      cp := cp + 1;
    }
    if !needsQuoting {
      return s;
    }
    r := QuoteFrom(mode, s);
  }

  // The second loop, beginning in this mode.
  method QuoteFrom(start: Mode, s: string) returns (r: string)
    ensures r == [Mark(start)] + Quoted(start, s)
  {
    hide Quoted, Mark;
    var mode, buffer, cp := start, [Mark(start)], 0;
    assert s[0..] == s;
    while cp < |s|
      invariant cp <= |s| && buffer + Quoted(mode, s[cp..]) == [Mark(start)] + Quoted(start, s)
    {
      var c := s[cp];
      assert s[cp..][1..] == s[cp + 1..];
      QuotedNext(mode, s[cp..]);
      assert buffer + (Escaped(mode, c) + Quoted(Switch(mode, c), s[cp + 1..]))
          == (buffer + Escaped(mode, c)) + Quoted(Switch(mode, c), s[cp + 1..]);
      if mode == Single {
        if c == '\'' {
          buffer := buffer + "'\"'";
          mode := Double;
        } else {
          buffer := buffer + [c];
        }
      } else {
        if c == '!' {
          buffer := buffer + "\"'!";
          mode := Single;
        } else if c in {'\n', '"', '\\', '`', '$'} {
          buffer := buffer + ['\\'];
          buffer := buffer + [c];
        } else {
          buffer := buffer + [c];
        }
      }
      cp := cp + 1;
    }
    QuotedEnd(mode);
    assert s[|s|..] == "";
    return buffer + [Mark(mode)];
  }

  // ----------------------------------------------------------------- results

  // A string is left as it is just when it has no white space and none of these.
  lemma UnquotedIs(s: string)
    ensures Result(s) == s <==> forall i: nat | i < |s| ::
      s[i] !in {' ', '\t', '\n', '\r', '\U{B}', '\U{C}', '!', '\'', '"', '#', '$', '&', '(', ')', '*', ':', ';', '<',
                '=', '>', '?', '[', '\\', ']', '^', '`', '{', '|', '}', '~'}
  {
    Unmarked(s);
  }

  lemma Unmarked(s: string)
    ensures Result(s) == s <==> forall i: nat | i < |s| :: !Special(s[i])
  {
    NoMode(s);
    var mode := FirstMode(s);
    if mode.Some? {
      Longer(mode.value, s);
    }
  }

  lemma {:induction false} NoMode(s: string)
    ensures FirstMode(s).None? <==> forall i: nat | i < |s| :: !Special(s[i])
  {
    if s != "" {
      NoMode(s[1..]);
      if FirstMode(s).None? {
        assert s == [s[0]] + s[1..];
      }
    }
  }

  // The first character that needs quotes says which come first.
  lemma FirstMark(t: string, c: char, u: string)
    requires Result(t) == t && Result([c]) != [c]
    ensures var s := t + [c] + u;
      Result(s) == if c == '\'' then "\"" + Quoted(Double, s) else "'" + Quoted(Single, s)
  {
    Unmarked(t);
    Unmarked([c]);
    FirstModeOf(t, c, u);
  }

  lemma {:induction false} FirstModeOf(t: string, c: char, u: string)
    requires (forall i: nat | i < |t| :: !Special(t[i])) && Special(c)
    ensures FirstMode(t + [c] + u) == Some(if c == '\'' then Double else Single)
    decreases |t|
  {
    var s := t + [c] + u;
    if t != "" {
      FirstModeOf(t[1..], c, u);
      assert s[1..] == t[1..] + [c] + u;
    }
  }

  lemma {:induction false} Longer(mode: Mode, s: string)
    ensures |Quoted(mode, s)| > |s|
    decreases |s|
  {
    if s != "" {
      Longer(Switch(mode, s[0]), s[1..]);
    }
  }

  // Without a quote in it, the rest of a string in single quotes is as it is.
  lemma {:induction false} SingleIs(s: string)
    requires '\'' !in s
    ensures Quoted(Single, s) == s + "'"
    decreases |s|
  {
    if s != "" {
      SingleIs(s[1..]);
      assert s == [s[0]] + s[1..];
    }
  }

  // Without an exclamation mark in it, the rest of a string in double quotes has a
  // backslash before each of five characters.
  lemma {:induction false} DoubleIs(s: string)
    requires '!' !in s
    ensures Quoted(Double, s) == Backslashed(s) + "\""
    decreases |s|
  {
    if s != "" {
      DoubleIs(s[1..]);
    }
  }

  function Backslashed(s: string): string {
    if s == "" then "" else (if s[0] in {'\n', '"', '\\', '`', '$'} then "\\" else "") + [s[0]] + Backslashed(s[1..])
  }

  lemma BackslashedNext(s: string)
    requires s != "" && s[0] != '!'
    ensures Backslashed(s) == Escaped(Double, s[0]) + Backslashed(s[1..])
  {
  }

  // At the first quote single quotes give way to double ones, ...
  lemma {:induction false} SingleUntil(s: string, t: string)
    requires '\'' !in s
    ensures Quoted(Single, s + "'" + t) == s + "'\"'" + Quoted(Double, t)
    decreases |s|
  {
    hide Quoted;
    var w := s + "'" + t;
    QuotedNext(Single, w);
    if s == "" {
      assert w[1..] == t;
    } else {
      SingleUntil(s[1..], t);
      assert w[1..] == s[1..] + "'" + t && s == [s[0]] + s[1..];
    }
  }

  // ... and these to single ones at the first exclamation mark.
  lemma {:induction false} DoubleUntil(s: string, t: string)
    requires '!' !in s
    ensures Quoted(Double, s + "!" + t) == Backslashed(s) + "\"'!" + Quoted(Single, t)
    decreases |s|
  {
    var w := s + "!" + t;
    QuotedNext(Double, w);
    if s == "" {
      assert w[1..] == t;
    } else {
      hide Quoted, Escaped, Backslashed;
      DoubleUntil(s[1..], t);
      BackslashedNext(s);
      assert w[1..] == s[1..] + "!" + t && Switch(Double, s[0]) == Double;
    }
  }

  // ------------------------------------------------------------- round trip

  // s without the newlines met within double quotes.
  function Kept(mode: Mode, s: string): string
    decreases |s|
  {
    if s == "" then ""
    else (if mode == Double && s[0] == '\n' then "" else [s[0]]) + Kept(Switch(mode, s[0]), s[1..])
  }

  lemma EscapedReads(mode: Mode, c: char, t: string)
    ensures var rest := Read(Within(Switch(mode, c)), t);
      Read(Within(mode), Escaped(mode, c) + t) == if mode == Double && c == '\n' then rest else Before(c, rest)
  {
    var e := Escaped(mode, c) + t;
    if |Escaped(mode, c)| == 1 {
      assert e[1..] == t;
    } else if |Escaped(mode, c)| == 2 {
      assert e[2..] == t;
    } else {
      var u := e[1..];
      var v := u[1..];
      assert u[0] == e[1] && v[0] == e[2] && v[1..] == t;
      var other := Switch(mode, c);
      assert Read(Within(mode), e) == Read(Unquoted, u);
      assert Read(Unquoted, u) == Read(Within(other), v);
      assert Read(Within(other), v) == Before(c, Read(Within(other), t));
    }
  }

  lemma {:induction false} QuotedReads(mode: Mode, s: string)
    ensures Read(Within(mode), Quoted(mode, s)) == Some(Kept(mode, s))
    decreases |s|
  {
    if s == "" {
      assert Quoted(mode, s)[1..] == "";
    } else {
      hide Read, Escaped;
      QuotedReads(Switch(mode, s[0]), s[1..]);
      EscapedReads(mode, s[0], Quoted(Switch(mode, s[0]), s[1..]));
      var rest := Kept(Switch(mode, s[0]), s[1..]);
      assert "" + rest == rest;
    }
  }

  lemma {:induction false} PlainReads(s: string)
    requires FirstMode(s).None?
    ensures Read(Unquoted, s) == Some(s)
  {
    if s != "" {
      PlainReads(s[1..]);
      assert [s[0]] + s[1..] == s;
    }
  }

  // Whether the quoting is in double quotes after s: the last quote or exclamation mark
  // of s was a quote.
  predicate AfterQuote(s: string) {
    s != "" && (s[|s| - 1] == '\'' || (s[|s| - 1] != '!' && AfterQuote(s[..|s| - 1])))
  }

  predicate LosesNewline(s: string) {
    exists i: nat :: i < |s| && s[i] == '\n' && AfterQuote(s[..i])
  }

  // What is read back: the string without those newlines.
  lemma ReadsBack(s: string)
    requires s != ""
    ensures ReadWord(Result(s)) == Some(if FirstMode(s).None? then s else Kept(FirstMode(s).value, s))
  {
    var mode := FirstMode(s);
    if mode.None? {
      PlainReads(s);
    } else {
      QuotedReads(mode.value, s);
      assert Result(s)[1..] == Quoted(mode.value, s);
    }
  }

  lemma {:induction false} KeptLength(mode: Mode, s: string)
    ensures |Kept(mode, s)| <= |s|
    ensures |Kept(mode, s)| == |s| ==> Kept(mode, s) == s
    decreases |s|
  {
    if s != "" {
      KeptLength(Switch(mode, s[0]), s[1..]);
      assert [s[0]] + s[1..] == s;
    }
  }

  // The mode after a prefix, from a mode that begins it.
  predicate DoubleAfter(mode: Mode, s: string)
    decreases |s|
  {
    if s == "" then mode == Double else DoubleAfter(Switch(mode, s[0]), s[1..])
  }

  lemma {:induction false} DoubleSnoc(mode: Mode, s: string)
    requires s != ""
    ensures var before := if DoubleAfter(mode, s[..|s| - 1]) then Double else Single;
      DoubleAfter(mode, s) <==> Switch(before, s[|s| - 1]) == Double
    decreases |s|
  {
    if |s| > 1 {
      DoubleSnoc(Switch(mode, s[0]), s[1..]);
      assert s[1..][..|s| - 2] == s[..|s| - 1][1..];
    }
  }

  // The quoting is in double quotes after s just when the last mark of s was a quote;
  // with no mark in s, when it began so.
  lemma {:induction false} DoubleIsAfterQuote(mode: Mode, s: string)
    ensures DoubleAfter(mode, s) <==> AfterQuote(s) || (mode == Double && '\'' !in s && '!' !in s)
    decreases |s|
  {
    if s != "" {
      var t, c := s[..|s| - 1], s[|s| - 1];
      assert s == t + [c];
      DoubleSnoc(mode, s);
      DoubleIsAfterQuote(mode, t);
    }
  }

  // No newline is met within double quotes.
  predicate KeepsNewlines(mode: Mode, s: string) {
    forall i: nat | i < |s| :: s[i] == '\n' ==> !DoubleAfter(mode, s[..i])
  }

  predicate LosesFirst(mode: Mode, s: string)
    requires s != ""
  {
    mode == Double && s[0] == '\n'
  }

  lemma KeepsStep(mode: Mode, s: string)
    requires s != ""
    ensures KeepsNewlines(mode, s) <==> !LosesFirst(mode, s) && KeepsNewlines(Switch(mode, s[0]), s[1..])
  {
    var m, t := Switch(mode, s[0]), s[1..];
    forall i: nat | i < |t| ensures DoubleAfter(mode, s[..i + 1]) <==> DoubleAfter(m, t[..i]) {
      assert s[..i + 1][1..] == t[..i];
    }
    hide Switch;
    assert s[..0] == "";
    if KeepsNewlines(mode, s) {
      forall i: nat | i < |t| && t[i] == '\n' ensures !DoubleAfter(m, t[..i]) {
        assert s[i + 1] == '\n';
      }
    } else {
      var i: nat :| i < |s| && s[i] == '\n' && DoubleAfter(mode, s[..i]);
      if i > 0 {
        assert t[i - 1] == '\n' && s[..i - 1 + 1] == s[..i];
      }
    }
  }

  lemma KeptStep(mode: Mode, s: string)
    requires s != ""
    ensures Kept(mode, s) == s <==> !LosesFirst(mode, s) && Kept(Switch(mode, s[0]), s[1..]) == s[1..]
  {
    var m, t := Switch(mode, s[0]), s[1..];
    hide Switch;
    KeptLength(m, t);
    assert s == [s[0]] + t && ([s[0]] + Kept(m, t))[1..] == Kept(m, t);
  }

  // Newlines are lost just where they are met within double quotes.
  lemma {:induction false} KeptExactly(mode: Mode, s: string)
    ensures Kept(mode, s) == s <==> KeepsNewlines(mode, s)
    decreases |s|
  {
    if s != "" {
      hide Kept, KeepsNewlines, LosesFirst;
      KeptExactly(Switch(mode, s[0]), s[1..]);
      KeptStep(mode, s);
      KeepsStep(mode, s);
    }
  }

  // A string begins in double quotes only when a quote comes before any newline.
  lemma {:induction false} FirstIsQuote(s: string, i: nat)
    requires FirstMode(s) == Some(Double) && i < |s| && s[i] == '\n'
    ensures '\'' in s[..i]
    decreases |s|
  {
    if Special(s[0]) {
      assert s[..i][0] == '\'';
    } else {
      FirstIsQuote(s[1..], i - 1);
      assert s[..i] == [s[0]] + s[1..][..i - 1];
    }
  }

  // The quoted string reads back as the one word it was made from exactly when it has a
  // character, and none of its newlines comes after a quote with no exclamation mark in
  // between.
  lemma RoundTrip(s: string)
    ensures ReadWord(Result(s)) == Some(s) <==> s != "" && !LosesNewline(s)
  {
    if s != "" {
      ReadsBack(s);
      var mode := FirstMode(s);
      if mode.None? {
        NoNewline(s);
      } else {
        KeptExactly(mode.value, s);
        forall i: nat | i < |s| && s[i] == '\n'
          ensures DoubleAfter(mode.value, s[..i]) <==> AfterQuote(s[..i])
        {
          DoubleIsAfterQuote(mode.value, s[..i]);
          if mode.value == Double {
            FirstIsQuote(s, i);
          }
        }
      }
    }
  }

  // A quote and a newline: the newline is lost.  Of the empty string nothing is left
  // to read.
  lemma NewlineLost()
    ensures ReadWord(Result("'\n")) == Some("'")
    ensures ReadWord(Result("")) != Some("")
  {
    var s, t := "'\n", "\n";
    ReadsBack(s);
    assert s[1..] == t && t[1..] == "";
    assert Kept(Double, t) == "";
    assert Kept(Double, s) == "'";
    RoundTrip("");
  }

  lemma {:induction false} NoNewline(s: string)
    requires FirstMode(s).None?
    ensures '\n' !in s
  {
    if s != "" {
      NoNewline(s[1..]);
    }
  }
}
