/** The generated shell text reads back as what it was generated from. */
module Quoting {
  import opened Basics
  import opened Text
  import opened Shell
  import opened Script
  import Duration

  // ---------------------------------------------------------------- shellQuoteJoin

  /** How a part arrives: single-quoted throughout, its own single quotes in double quotes. */
  function QuotedWord(s: string): Shell.Word {
    seq(|s|, i requires 0 <= i < |s| => Letter(s[i], if s[i] == '\'' then Double else Literal))
  }

  function QuotedTokens(parts: seq<string>): seq<Token> {
    seq(|parts|, i requires 0 <= i < |parts| => Token.Word(QuotedWord(parts[i])))
  }

  /** Nothing in the word can be expanded, split or matched against file names, and it means `s`. */
  ghost predicate MeansExactly(w: Shell.Word, s: string) {
    && Unquote(w) == s
    && (forall l :: l in w ==> l.quoting == Literal || (l.quoting == Double && l.c !in ['$', '`', '\\']))
  }

  lemma ReadQuoteMark(r: Reader, w: Shell.Word)
    requires r.mode == InSingle(w)
    ensures Read(r, "'\"'\"'") == r.(mode := InSingle(w + [Letter('\'', Double)]))
  {
    var s := "'\"'\"'";
    var r1 := Next(r, s[0]);
    var r2 := Next(r1, s[1]);
    var r3 := Next(r2, s[2]);
    var r4 := Next(r3, s[3]);
    var r5 := Next(r4, s[4]);
    assert s[1..][0] == s[1] && s[1..][1..] == s[2..] && s[2..][0] == s[2] && s[2..][1..] == s[3..] && s[3..][0] == s[3]
      && s[3..][1..] == s[4..] && s[4..][0] == s[4] && s[4..][1..] == "";
    assert Read(r5, "") == r5;
    assert Read(r4, s[4..]) == r5;
    assert Read(r3, s[3..]) == r5;
    assert Read(r2, s[2..]) == r5;
    assert Read(r1, s[1..]) == r5;
  }

  lemma {:induction false} ReadEscaped(r: Reader, w: Shell.Word, s: string)
    requires r.mode == InSingle(w)
    ensures Read(r, Escape(s)) == r.(mode := InSingle(w + QuotedWord(s)))
    decreases |s|
  {
    if s == "" {
      assert w + QuotedWord(s) == w;
    } else {
      var l := Letter(s[0], if s[0] == '\'' then Double else Literal);
      var r' := r.(mode := InSingle(w + [l]));
      if s[0] == '\'' {
        ReadQuoteMark(r, w);
        ReadConcat(r, "'\"'\"'", Escape(s[1..]));
      } else {
        ReadOne(r, s[0]);
        ReadConcat(r, [s[0]], Escape(s[1..]));
      }
      ReadEscaped(r', w + [l], s[1..]);
      assert w + [l] + QuotedWord(s[1..]) == w + QuotedWord(s);
    }
  }

  lemma ReadQuoted(r: Reader, s: string)
    requires r.mode == Blank
    ensures Read(r, Quote(s)) == r.(mode := InWord(QuotedWord(s)))
  {
    var open := r.(mode := InSingle([]));
    ReadOne(r, '\'');
    ReadConcat(r, "'", Escape(s));
    ReadEscaped(open, [], s);
    assert [] + QuotedWord(s) == QuotedWord(s);
    ReadConcat(r, "'" + Escape(s), "'");
    ReadOne(r.(mode := InSingle(QuotedWord(s))), '\'');
  }

  ghost predicate Between(r: Reader) {
    r.mode == Blank && !r.delimiterNext
  }

  lemma BlankEndsWord(r: Reader, w: Shell.Word)
    ensures Next(r.(mode := InWord(w)), ' ') == EndWord(r, w)
  {
  }

  lemma {:induction false} ReadJoined(r: Reader, parts: seq<string>)
    requires Between(r) && parts != []
    ensures Read(r, ShellQuoteJoin(parts)) ==
            r.(tokens := r.tokens + QuotedTokens(parts[..|parts| - 1]), mode := InWord(QuotedWord(parts[|parts| - 1])))
    decreases |parts|
  {
    hide Next, Quote, QuotedWord;
    var first := QuotedWord(parts[0]);
    ReadQuoted(r, parts[0]);
    if |parts| == 1 {
      assert ShellQuoteJoin(parts) == Quote(parts[0]);
      assert r.tokens + QuotedTokens(parts[..0]) == r.tokens;
    } else {
      var rest := parts[1..];
      assert Quotes(parts)[1..] == Quotes(rest);
      assert ShellQuoteJoin(parts) == Quote(parts[0]) + " " + ShellQuoteJoin(rest);
      var next := EndWord(r, first);
      ReadConcat(r, Quote(parts[0]), " ");
      ReadOne(r.(mode := InWord(first)), ' ');
      BlankEndsWord(r, first);
      hide Read;
      ReadConcat(r, Quote(parts[0]) + " ", ShellQuoteJoin(rest));
      ReadJoined(next, rest);
      assert r.tokens + [Token.Word(first)] + QuotedTokens(rest[..|rest| - 1]) ==
        r.tokens + QuotedTokens(parts[..|parts| - 1]);
    }
  }

  /** Quoting round trip: for every list of strings, reading the joined text gives one line of exactly as many
      words, each meaning its part exactly, and ends outside any quote. */
  lemma QuotingRoundTrip(parts: seq<string>)
    ensures var r := Read(FRESH, ShellQuoteJoin(parts));
            && Complete(r)
            && AtEnd(r).lines == (if parts == [] then [] else [Line(QuotedTokens(parts), [])])
            && AtEnd(r).comments == []
    ensures forall i :: 0 <= i < |parts| ==> MeansExactly(QuotedTokens(parts)[i].word, parts[i])
  {
    if parts != [] {
      ReadJoined(FRESH, parts);
      var last := QuotedWord(parts[|parts| - 1]);
      assert [] + QuotedTokens(parts[..|parts| - 1]) + [Token.Word(last)] == QuotedTokens(parts);
    }
  }

  // ---------------------------------------------------------------- the command wrapper

  function PlainToken(s: string): Token {
    Token.Word(Bares(s))
  }

  function TimeoutTokens(timeout: Option<int>): seq<Token> {
    if timeout.Some? then [PlainToken("timeout"), PlainToken(Duration.FormatDuration(timeout.value))] else []
  }

  function OrTrueTokens(continueOnError: bool): seq<Token> {
    if continueOnError then [Operator("||"), PlainToken("true")] else []
  }

  const SET_E_LINE := Line([PlainToken("set"), PlainToken("-e")], [])

  lemma PlainWords()
    ensures Plain("set") && Plain("-e") && Plain("timeout") && Plain("true") && Plain("cat") && Plain("chmod")
        && Plain("+x") && Plain("trap") && Plain("EXIT")
  {
  }

  lemma DurationIsPlain(d: int)
    ensures Duration.FormatDuration(d) != "" && Plain(Duration.FormatDuration(d))
  {
    Duration.PrintedReads(d);
    var digits := Decimal(Duration.WholeSeconds(d));
    forall c | c in Duration.FormatDuration(d)
      ensures PlainChar(c)
    {
      assert c in digits || c == 's';
    }
  }

  /** A fresh reader after a number of lines. */
  function After(lines: seq<Line>): Reader {
    FRESH.(lines := lines, comments := ["#!/bin/sh"])
  }

  lemma ShebangPieces()
    ensures SHEBANG == "#" + "!/bin/sh" + "\n" && '\n' !in "!/bin/sh" && "#" + "!/bin/sh" == "#!/bin/sh"
  {
  }

  lemma ReadShebang()
    ensures Read(FRESH, SHEBANG) == After([])
  {
    hide Read;
    var r := FRESH.(mode := InComment("#"));
    var r' := FRESH.(mode := InComment("#!/bin/sh"));
    ShebangPieces();
    ReadOne(FRESH, '#');
    ReadComment(r, "#", "!/bin/sh");
    ReadOne(r', '\n');
    assert Next(r', '\n') == After([]);
    hide Next;
    ReadThen(FRESH, "#", r, "!/bin/sh", r');
    ReadThen(FRESH, "#" + "!/bin/sh", r', "\n", After([]));
  }

  /** The end of a line that is a word. */
  lemma ReadWordEnd(r: Reader, w: Shell.Word)
    requires r.mode == InWord(w) && !r.delimiterNext && r.pending == [] && r.docs == []
    ensures Read(r, "\n") == r.(lines := r.lines + [Line(r.tokens + [Token.Word(w)], [])], tokens := [], mode := Blank)
  {
    ReadOne(r, '\n');
  }

  lemma SetEPieces()
    ensures SET_E == "set" + " " + "-e" + "\n"
  {
  }

  lemma ReadSetE(lines: seq<Line>)
    ensures Read(After(lines), SET_E) == After(lines + [SET_E_LINE])
  {
    hide Read;
    PlainWords();
    SetEPieces();
    var r := After(lines);
    var r1 := EndWord(r, Bares("set"));
    var r2 := r1.(mode := InWord(Bares("-e")));
    ReadPlainThenBlank(r, "set");
    ReadPlainWord(r1, "-e");
    ReadWordEnd(r2, Bares("-e"));
    hide Next;
    assert r2.tokens + [PlainToken("-e")] == SET_E_LINE.tokens;
    ReadThen(r, "set" + " ", r1, "-e", r2);
    ReadThen(r, "set" + " " + "-e", r2, "\n", After(lines + [SET_E_LINE]));
  }

  lemma ReadTimeout(r: Reader, timeout: Option<int>)
    requires Between(r)
    ensures Read(r, TimeoutPrefix(timeout)) == r.(tokens := r.tokens + TimeoutTokens(timeout))
  {
    if timeout.Some? {
      PlainWords();
      var d := Duration.FormatDuration(timeout.value);
      DurationIsPlain(timeout.value);
      assert "timeout " == "timeout" + " ";
      assert TimeoutPrefix(timeout) == ("timeout" + " ") + (d + " ");
      ReadPlainThenBlank(r, "timeout");
      ReadConcat(r, "timeout" + " ", d + " ");
      ReadPlainThenBlank(EndWord(r, Bares("timeout")), d);
    } else {
      assert r.tokens + [] == r.tokens;
    }
  }

  lemma OrTruePieces()
    ensures OR_TRUE == " " + "|" + "|" + " " + "true"
  {
  }

  lemma ReadOrTrue(r: Reader, w: Shell.Word)
    requires r.mode == InWord(w) && !r.delimiterNext
    ensures Read(r, OR_TRUE) == r.(tokens := r.tokens + [Token.Word(w), Operator("||")], mode := InWord(Bares("true")))
  {
    hide Read;
    PlainWords();
    OrTruePieces();
    var r1 := EndWord(r, w);
    var r2, r3 := r1.(mode := InOperator("|")), r1.(mode := InOperator("||"));
    var r4 := EndOperator(r1, "||");
    var r5 := r4.(mode := InWord(Bares("true")));
    ReadOne(r, ' ');
    ReadOne(r1, '|');
    ReadOne(r2, '|');
    ReadOne(r3, ' ');
    assert Next(r2, '|') == r3 by {
      assert "|" + "|" == "||";
    }
    assert Next(r3, ' ') == r4;
    ReadPlainWord(r4, "true");
    hide Next;
    assert r5.tokens == r.tokens + [Token.Word(w), Operator("||")];
    ReadThen(r, " ", r1, "|", r2);
    ReadThen(r, " " + "|", r2, "|", r3);
    ReadThen(r, " " + "|" + "|", r3, " ", r4);
    ReadThen(r, " " + "|" + "|" + " ", r4, "true", r5);
  }

  /** The end of a command, with or without `|| true`, after a word. */
  lemma ReadSuffix(r: Reader, w: Shell.Word, continueOnError: bool)
    requires r.mode == InWord(w) && !r.delimiterNext && r.pending == [] && r.docs == []
    ensures Read(r, (if continueOnError then OR_TRUE else "") + "\n") ==
            r.(lines := r.lines + [Line(r.tokens + [Token.Word(w)] + OrTrueTokens(continueOnError), [])], tokens := [],
              mode := Blank)
  {
    if continueOnError {
      ReadOrTrue(r, w);
      var r1 := r.(tokens := r.tokens + [Token.Word(w), Operator("||")], mode := InWord(Bares("true")));
      ReadWordEnd(r1, Bares("true"));
      ReadThen(r, OR_TRUE, r1, "\n", Read(r1, "\n"));
      assert r1.tokens + [PlainToken("true")] == r.tokens + [Token.Word(w)] + OrTrueTokens(true);
    } else {
      assert "" + "\n" == "\n";
      ReadWordEnd(r, w);
      assert r.tokens + [Token.Word(w)] + [] == r.tokens + [Token.Word(w)];
    }
  }

  /** The head of every wrapper: the shebang, and `set -e` if asked for. */
  lemma ReadHead(errexit: bool)
    ensures Read(FRESH, SHEBANG + if errexit then SET_E else "") == After(if errexit then [SET_E_LINE] else [])
  {
    ReadShebang();
    ReadSetE([]);
    assert [] + [SET_E_LINE] == [SET_E_LINE];
    ReadThen(FRESH, SHEBANG, After([]), if errexit then SET_E else "", After(if errexit then [SET_E_LINE] else []));
  }

  function CommandLine(parts: seq<string>, continueOnError: bool, timeout: Option<int>): Line {
    Line(TimeoutTokens(timeout) + QuotedTokens(parts) + OrTrueTokens(continueOnError), [])
  }

  function Suffix(continueOnError: bool): string {
    (if continueOnError then OR_TRUE else "") + "\n"
  }

  lemma ReadCommandLine(lines: seq<Line>, parts: seq<string>, continueOnError: bool, timeout: Option<int>)
    requires parts != []
    ensures Read(After(lines), TimeoutPrefix(timeout) + ShellQuoteJoin(parts) + Suffix(continueOnError)) ==
            After(lines + [CommandLine(parts, continueOnError, timeout)])
  {
    hide Read;
    ReadTimeout(After(lines), timeout);
    var r1 := After(lines).(tokens := [] + TimeoutTokens(timeout));
    ReadJoined(r1, parts);
    var last := QuotedWord(parts[|parts| - 1]);
    var r2 := r1.(tokens := r1.tokens + QuotedTokens(parts[..|parts| - 1]), mode := InWord(last));
    ReadSuffix(r2, last, continueOnError);
    hide Next, TimeoutPrefix, ShellQuoteJoin;
    TokensJoin(TimeoutTokens(timeout), parts, OrTrueTokens(continueOnError));
    ReadThen(After(lines), TimeoutPrefix(timeout), r1, ShellQuoteJoin(parts), r2);
    ReadThen(After(lines), TimeoutPrefix(timeout) + ShellQuoteJoin(parts), r2, Suffix(continueOnError),
      After(lines + [CommandLine(parts, continueOnError, timeout)]));
  }

  lemma TokensJoin(before: seq<Token>, parts: seq<string>, after: seq<Token>)
    requires parts != []
    ensures [] + before + QuotedTokens(parts[..|parts| - 1]) + [Token.Word(QuotedWord(parts[|parts| - 1]))] + after ==
            before + QuotedTokens(parts) + after
  {
  }

  /** Whole command wrapper: for every non-empty command the text is one shebang comment, `set -e` unless errors are
      ignored, and one line: the timeout if there is one, the command and its arguments word for word, and
      `|| true` exactly when errors are ignored. */
  lemma CommandWrapperReadsBack(command: seq<string>, args: seq<string>, continueOnError: bool, timeout: Option<int>)
    requires command != []
    ensures var r := Read(FRESH, CommandText(command, args, continueOnError, timeout));
            && Complete(r)
            && AtEnd(r).comments == ["#!/bin/sh"]
            && AtEnd(r).lines == (if continueOnError then [] else [SET_E_LINE])
              + [CommandLine(command + args, continueOnError, timeout)]
  {
    hide Read;
    var lines := if continueOnError then [] else [SET_E_LINE];
    var head := SHEBANG + if !continueOnError then SET_E else "";
    var rest := TimeoutPrefix(timeout) + ShellQuoteJoin(command + args) + Suffix(continueOnError);
    TextInPieces(command, args, continueOnError, timeout);
    ReadHead(!continueOnError);
    ReadCommandLine(lines, command + args, continueOnError, timeout);
    hide Next, CommandText, CommandLine;
    ReadThen(FRESH, head, After(lines), rest, After(lines + [CommandLine(command + args, continueOnError, timeout)]));
  }

  lemma TextInPieces(command: seq<string>, args: seq<string>, continueOnError: bool, timeout: Option<int>)
    ensures CommandText(command, args, continueOnError, timeout) ==
            SHEBANG + (if !continueOnError then SET_E else "")
            + (TimeoutPrefix(timeout) + ShellQuoteJoin(command + args) + Suffix(continueOnError))
  {
    hide TimeoutPrefix, ShellQuoteJoin;
    Regrouped(SHEBANG, SET_E, TimeoutPrefix(timeout) + ShellQuoteJoin(command + args), OR_TRUE, "\n");
  }

  lemma Regrouped(a: string, b: string, c: string, d: string, e: string)
    ensures a + c + d + e == a + "" + (c + (d + e))
    ensures a + b + c + e == a + b + (c + ("" + e))
  {
  }
}
