/** The script wrapper and its here-document. */
module HereDocs {
  import opened Basics
  import opened Shell
  import opened Script
  import opened Quoting

  function Variable(name: string): Shell.Word {
    [Letter('$', Bare)] + Bares(name)
  }

  function Substitution(name: string, command: string): Shell.Word {
    Bares(name) + [Letter('=', Bare)] + [Letter('$', Bare)] + [Letter('(', Bare)] + Bares(command) + [Letter(')', Bare)]
  }

  const SCRIPT_FILE := Token.Word(Variable(FILE))

  const ASSIGN_LINE := Line([Token.Word(Substitution(FILE, "mktemp"))], [])
  const TRAP_LINE := Line([PlainToken("trap"), Token.Word(Doubles(CLEAN_UP)), PlainToken("EXIT")], [])
  const CAT_TOKENS := [PlainToken("cat"), Operator(">"), SCRIPT_FILE, Operator("<<"), Token.Word(Literals(DELIMITER))]
  const CHMOD_LINE := Line([PlainToken("chmod"), PlainToken("+x"), SCRIPT_FILE], [])

  function RunLine(timeout: Option<int>, continueOnError: bool): Line {
    Line(TimeoutTokens(timeout) + [SCRIPT_FILE] + OrTrueTokens(continueOnError), [])
  }

  function BeforeCat(): seq<Line> {
    [SET_E_LINE, ASSIGN_LINE, TRAP_LINE]
  }

  /** The wrapper as it is meant to be read. */
  function WrapperLines(script: string, timeout: Option<int>, continueOnError: bool): seq<Line> {
    BeforeCat() + [Line(CAT_TOKENS, [HereDoc(script + "\n", false)]), CHMOD_LINE, RunLine(timeout, continueOnError)]
  }

  /** The lines of a text: one more than it has newlines. `line` is what has been seen of the first. */
  function LinesFrom(line: string, s: string): seq<string>
    decreases |s|
  {
    if s == "" then [line]
    else if s[0] == '\n' then [line] + LinesFrom("", s[1..])
    else LinesFrom(line + [s[0]], s[1..])
  }

  predicate HasDelimiterLine(script: string) {
    DELIMITER in LinesFrom("", script)
  }

  // ---------------------------------------------------------------- reading each kind of line, for any names

  lemma VariableStarts(r: Reader, c: char)
    requires r.mode == Blank && PlainChar(c)
    ensures Next(r, '$') == r.(mode := AfterDollar([Letter('$', Bare)]))
    ensures Next(Next(r, '$'), c) == r.(mode := InWord([Letter('$', Bare), Letter(c, Bare)]))
  {
    assert [] + [Letter('$', Bare)] == [Letter('$', Bare)];
    assert [Letter('$', Bare)] + [Letter(c, Bare)] == [Letter('$', Bare), Letter(c, Bare)];
  }

  lemma ReadVariable(r: Reader, name: string)
    requires r.mode == Blank && name != "" && Plain(name)
    ensures Read(r, "$" + name) == r.(mode := InWord(Variable(name)))
  {
    var first := [Letter('$', Bare), Letter(name[0], Bare)];
    var r1, r2 := r.(mode := AfterDollar([Letter('$', Bare)])), r.(mode := InWord(first));
    assert name[0] in name;
    VariableStarts(r, name[0]);
    hide Next, Plain;
    ReadOne(r, '$');
    ReadPlain(r2, first, name[1..]);
    assert first + Bares(name[1..]) == Variable(name);
    assert Read(r1, name) == Read(r2, name[1..]);
    hide Read;
    ReadThen(r, "$", r1, name, r.(mode := InWord(Variable(name))));
  }

  lemma {:induction false} ReadSubstitution(r: Reader, w: Shell.Word, s: string)
    requires r.mode == InSubstitution(w, 1) && Plain(s)
    ensures Read(r, s) == r.(mode := InSubstitution(w + Bares(s), 1))
    decreases |s|
  {
    if s == "" {
      assert w + Bares(s) == w;
    } else {
      var more := w + [Letter(s[0], Bare)];
      assert s[0] in s;
      ReadSubstitution(r.(mode := InSubstitution(more, 1)), more, s[1..]);
      assert more + Bares(s[1..]) == w + Bares(s);
    }
  }

  lemma ReadAssignment(r: Reader, name: string, command: string)
    requires r.mode == Blank && name != "" && Plain(name) && Plain(command)
    ensures Read(r, name + "=" + "$" + "(" + command + ")") == r.(mode := InWord(Substitution(name, command)))
  {
    hide Read;
    var w1 := Bares(name);
    var w2 := w1 + [Letter('=', Bare)];
    var w3 := w2 + [Letter('$', Bare)];
    var w4 := w3 + [Letter('(', Bare)];
    var w5 := w4 + Bares(command);
    var w6 := w5 + [Letter(')', Bare)];
    var r1, r2, r3, r4, r5, r6 := r.(mode := InWord(w1)), r.(mode := InWord(w2)), r.(mode := AfterDollar(w3)),
      r.(mode := InSubstitution(w4, 1)), r.(mode := InSubstitution(w5, 1)), r.(mode := InWord(w6));
    ReadPlainWord(r, name);
    ReadOne(r1, '=');
    ReadOne(r2, '$');
    ReadOne(r3, '(');
    ReadSubstitution(r4, w4, command);
    ReadOne(r5, ')');
    hide Next, Bares;
    ReadThen(r, name, r1, "=", r2);
    ReadThen(r, name + "=", r2, "$", r3);
    ReadThen(r, name + "=" + "$", r3, "(", r4);
    ReadThen(r, name + "=" + "$" + "(", r4, command, r5);
    ReadThen(r, name + "=" + "$" + "(" + command, r5, ")", r6);
  }

  /** A word in double quotes and the blank after it. */
  lemma ReadDoubleQuoted(r: Reader, text: string)
    requires r.mode == Blank && '"' !in text && '\\' !in text
    ensures Read(r, "\"" + text + "\"" + " ") == EndWord(r, Doubles(text))
  {
    hide Read;
    var r1, r2, r3 := r.(mode := InDouble([])), r.(mode := InDouble(Doubles(text))), r.(mode := InWord(Doubles(text)));
    ReadOne(r, '"');
    ReadDouble(r1, [], text);
    assert [] + Doubles(text) == Doubles(text);
    ReadOne(r2, '"');
    ReadOne(r3, ' ');
    hide Next, Doubles;
    ReadThen(r, "\"", r1, text, r2);
    ReadThen(r, "\"" + text, r2, "\"", r3);
    ReadThen(r, "\"" + text + "\"", r3, " ", EndWord(r, Doubles(text)));
  }

  /** The one-character operator `>` between blanks. */
  lemma ReadRedirect(r: Reader)
    requires r.mode == Blank && !r.delimiterNext
    ensures Read(r, ">" + " ") == r.(tokens := r.tokens + [Operator(">")])
  {
    hide Read;
    var r1 := r.(mode := InOperator(">"));
    ReadOne(r, '>');
    ReadOne(r1, ' ');
    assert Next(r1, ' ') == EndOperator(r, ">");
    hide Next;
    ReadThen(r, ">", r1, " ", EndOperator(r, ">"));
  }

  /** A quoted delimiter at the end of a line. */
  lemma ReadQuotedDelimiter(r: Reader, d: string)
    requires r.mode == Blank && r.delimiterNext && r.pending == [] && r.docs == [] && '\'' !in d
    ensures Read(r, "'" + d + "'" + "\n") ==
            r.(tokens := r.tokens + [Token.Word(Literals(d))], pending := [Literals(d)], delimiterNext := false, mode :=
              InHereDoc("", ""))
  {
    hide Read;
    var w := Literals(d);
    var r1, r2, r3 := r.(mode := InSingle([])), r.(mode := InSingle(w)), r.(mode := InWord(w));
    var r4 := EndWord(r3, w).(mode := InHereDoc("", ""));
    ReadOne(r, '\'');
    ReadSingle(r1, [], d);
    assert [] + w == w;
    ReadOne(r2, '\'');
    ReadOne(r3, '\n');
    assert Next(r3, '\n') == r4;
    hide Next, Literals;
    ReadThen(r, "'", r1, d, r2);
    ReadThen(r, "'" + d, r2, "'", r3);
    ReadThen(r, "'" + d + "'", r3, "\n", r4);
  }

  /** A here-document operator with a quoted delimiter, at the end of a line. */
  lemma ReadDelimiter(r: Reader, d: string)
    requires r.mode == Blank && !r.delimiterNext && r.pending == [] && r.docs == [] && '\'' !in d
    ensures Read(r, "<" + "<" + " " + "'" + d + "'" + "\n") ==
            r.(tokens := r.tokens + [Operator("<<"), Token.Word(Literals(d))], pending := [Literals(d)], mode :=
              InHereDoc("", ""))
  {
    hide Read;
    var w := Literals(d);
    var r1, r2 := r.(mode := InOperator("<")), r.(mode := InOperator("<<"));
    var r3 := EndOperator(r, "<<");
    assert "<" + "<" == "<<";
    ReadOne(r, '<');
    ReadOne(r1, '<');
    ReadOne(r2, ' ');
    assert Next(r1, '<') == r2 && Next(r2, ' ') == r3;
    ReadQuotedDelimiter(r3, d);
    hide Next, Literals;
    var quoted := "'" + d + "'" + "\n";
    assert "<" + "<" + " " + "'" + d + "'" + "\n" == "<" + "<" + " " + quoted;
    ReadThen(r, "<", r1, "<", r2);
    ReadThen(r, "<" + "<", r2, " ", r3);
    ReadThen(r, "<" + "<" + " ", r3, quoted, Read(r3, quoted));
    assert r3.tokens + [Token.Word(w)] == r.tokens + [Operator("<<"), Token.Word(w)];
  }

  // ---------------------------------------------------------------- the fixed lines

  lemma FixedTexts()
    ensures Plain(FILE) && FILE != "" && Plain("mktemp")
    ensures '"' !in CLEAN_UP && '\\' !in CLEAN_UP
    ensures '\'' !in DELIMITER && '\n' !in DELIMITER
  {
  }

  lemma ReadAssignLine(lines: seq<Line>)
    ensures Read(After(lines), MakeFile()) == After(lines + [ASSIGN_LINE])
  {
    hide Read;
    FixedTexts();
    var r := After(lines);
    var w := Substitution(FILE, "mktemp");
    var r1 := r.(mode := InWord(w));
    ReadAssignment(r, FILE, "mktemp");
    ReadWordEnd(r1, w);
    hide Next, Substitution;
    assert r1.tokens + [Token.Word(w)] == ASSIGN_LINE.tokens;
    ReadThen(r, FILE + "=" + "$" + "(" + "mktemp" + ")", r1, "\n", After(lines + [ASSIGN_LINE]));
  }

  lemma ReadTrapLine(lines: seq<Line>)
    ensures Read(After(lines), TrapExit()) == After(lines + [TRAP_LINE])
  {
    hide Read;
    FixedTexts();
    PlainWords();
    var r := After(lines);
    var r1 := EndWord(r, Bares("trap"));
    var r2 := EndWord(r1, Doubles(CLEAN_UP));
    var r3 := r2.(mode := InWord(Bares("EXIT")));
    ReadPlainThenBlank(r, "trap");
    ReadDoubleQuoted(r1, CLEAN_UP);
    ReadPlainWord(r2, "EXIT");
    ReadWordEnd(r3, Bares("EXIT"));
    hide Next, Bares, Doubles;
    assert r3.tokens + [PlainToken("EXIT")] == TRAP_LINE.tokens;
    var a, b := "trap" + " ", "\"" + CLEAN_UP + "\"" + " ";
    ReadThen(r, a, r1, b, r2);
    ReadThen(r, a + b, r2, "EXIT", r3);
    ReadThen(r, a + b + "EXIT", r3, "\n", After(lines + [TRAP_LINE]));
  }

  /** The reader inside the here-document of the `cat` line. */
  function InBody(lines: seq<Line>, line: string, body: string): Reader {
    After(lines).(tokens := CAT_TOKENS, pending := [Literals(DELIMITER)], mode := InHereDoc(line, body))
  }

  /** A command whose output goes to a variable's file and whose input is a here-document. */
  lemma ReadInto(r: Reader, command: string, name: string, d: string)
    requires r.mode == Blank && !r.delimiterNext && r.pending == [] && r.docs == [] && r.tokens == []
    requires command != "" && Plain(command) && name != "" && Plain(name) && '\'' !in d
    ensures Read(r, (command + " ") + (">" + " ") + ("$" + name) + " " + ("<" + "<" + " " + "'" + d + "'" + "\n")) ==
            r.(tokens := [PlainToken(command), Operator(">"), Token.Word(Variable(name)), Operator("<<"),
              Token.Word(Literals(d))],
               pending := [Literals(d)], mode := InHereDoc("", ""))
  {
    hide Read;
    var r1 := EndWord(r, Bares(command));
    var r2 := r1.(tokens := r1.tokens + [Operator(">")]);
    var r3 := r2.(mode := InWord(Variable(name)));
    var r4 := EndWord(r3, Variable(name));
    ReadPlainThenBlank(r, command);
    ReadRedirect(r1);
    ReadVariable(r2, name);
    ReadOne(r3, ' ');
    assert Next(r3, ' ') == r4;
    ReadDelimiter(r4, d);
    hide Next, Bares, Variable, Literals;
    var r5 := r4.(tokens := r4.tokens + [Operator("<<"), Token.Word(Literals(d))], pending := [Literals(d)], mode :=
      InHereDoc("", ""));
    assert r5.tokens == [PlainToken(command), Operator(">"), Token.Word(Variable(name)), Operator("<<"),
      Token.Word(Literals(d))];
    ReadThen(r, command + " ", r1, ">" + " ", r2);
    ReadThen(r, (command + " ") + (">" + " "), r2, "$" + name, r3);
    ReadThen(r, (command + " ") + (">" + " ") + ("$" + name), r3, " ", r4);
    ReadThen(r, (command + " ") + (">" + " ") + ("$" + name) + " ", r4, "<" + "<" + " " + "'" + d + "'" + "\n", r5);
  }

  lemma ReadCatLine(lines: seq<Line>)
    ensures Read(After(lines), ReadScript()) == InBody(lines, "", "")
  {
    FixedTexts();
    PlainWords();
    hide Read;
    ReadInto(After(lines), "cat", FILE, DELIMITER);
  }

  /** Up to the here-document the wrapper is the same for every script. */
  lemma ReadWrapHead()
    ensures Read(FRESH, WrapHead()) == InBody(BeforeCat(), "", "")
  {
    var l1, l2 := [SET_E_LINE], [SET_E_LINE, ASSIGN_LINE];
    ReadHead(true);
    ReadAssignLine(l1);
    ReadTrapLine(l2);
    ReadCatLine(BeforeCat());
    hide Read, MakeFile, TrapExit, ReadScript;
    assert l1 + [ASSIGN_LINE] == l2 && l2 + [TRAP_LINE] == BeforeCat();
    ReadThen(FRESH, SHEBANG + SET_E, After(l1), MakeFile(), After(l2));
    ReadThen(FRESH, SHEBANG + SET_E + MakeFile(), After(l2), TrapExit(), After(BeforeCat()));
    ReadThen(FRESH, SHEBANG + SET_E + MakeFile() + TrapExit(), After(BeforeCat()), ReadScript(),
      InBody(BeforeCat(), "", ""));
  }

  lemma ReadRunLine(lines: seq<Line>, timeout: Option<int>, continueOnError: bool)
    ensures Read(After(lines), TimeoutPrefix(timeout) + ("$" + FILE) + Suffix(continueOnError)) ==
        After(lines + [RunLine(timeout, continueOnError)])
  {
    hide Read;
    var r := After(lines);
    ReadTimeout(r, timeout);
    var r1 := r.(tokens := [] + TimeoutTokens(timeout));
    assert [] + TimeoutTokens(timeout) == TimeoutTokens(timeout);
    FixedTexts();
    ReadVariable(r1, FILE);
    var r2 := r1.(mode := InWord(Variable(FILE)));
    ReadSuffix(r2, Variable(FILE), continueOnError);
    hide Next, Variable, TimeoutPrefix, TimeoutTokens, OrTrueTokens;
    ReadThen(r, TimeoutPrefix(timeout), r1, "$" + FILE, r2);
    ReadThen(r, TimeoutPrefix(timeout) + ("$" + FILE), r2, Suffix(continueOnError),
      After(lines + [RunLine(timeout, continueOnError)]));
  }

  /** After the here-document, for any lines before. */
  lemma ReadWrapTail(lines: seq<Line>, timeout: Option<int>, continueOnError: bool)
    ensures Read(After(lines), WrapTail(timeout, continueOnError)) ==
        After(lines + [CHMOD_LINE, RunLine(timeout, continueOnError)])
  {
    hide Read;
    ReadChmodLine(lines);
    ReadRunLine(lines + [CHMOD_LINE], timeout, continueOnError);
    hide Next, Variable, MakeExecutable, TimeoutPrefix, RunLine;
    var rest := TimeoutPrefix(timeout) + ("$" + FILE) + Suffix(continueOnError);
    var end := After(lines + [CHMOD_LINE, RunLine(timeout, continueOnError)]);
    assert lines + [CHMOD_LINE] + [RunLine(timeout, continueOnError)] ==
      lines + [CHMOD_LINE, RunLine(timeout, continueOnError)];
    ReadThen(After(lines), MakeExecutable(), After(lines + [CHMOD_LINE]), rest, end);
    TailGroups(MakeExecutable(), TimeoutPrefix(timeout), "$" + FILE, Suffix(continueOnError));
  }

  lemma TailGroups(a: string, b: string, c: string, d: string)
    ensures a + (b + c + d) == a + b + c + d
  {
  }

  /** A command with one plain argument and a variable. */
  lemma ReadWithVariable(r: Reader, command: string, argument: string, name: string)
    requires r.mode == Blank && !r.delimiterNext && r.pending == [] && r.docs == [] && r.tokens == []
    requires command != "" && Plain(command) && argument != "" && Plain(argument) && name != "" && Plain(name)
    ensures Read(r, (command + " ") + (argument + " ") + ("$" + name) + "\n") ==
            r.(lines := r.lines + [Line([PlainToken(command), PlainToken(argument), Token.Word(Variable(name))], [])])
  {
    hide Read;
    var r1 := EndWord(r, Bares(command));
    var r2 := EndWord(r1, Bares(argument));
    var r3 := r2.(mode := InWord(Variable(name)));
    ReadPlainThenBlank(r, command);
    ReadPlainThenBlank(r1, argument);
    ReadVariable(r2, name);
    ReadWordEnd(r3, Variable(name));
    hide Next, Bares, Variable;
    assert r3.tokens + [Token.Word(Variable(name))] ==
      [PlainToken(command), PlainToken(argument), Token.Word(Variable(name))];
    var r4 := r.(lines := r.lines
      + [Line([PlainToken(command), PlainToken(argument), Token.Word(Variable(name))], [])]);
    ReadThen(r, command + " ", r1, argument + " ", r2);
    ReadThen(r, (command + " ") + (argument + " "), r2, "$" + name, r3);
    ReadThen(r, (command + " ") + (argument + " ") + ("$" + name), r3, "\n", r4);
  }

  lemma ReadChmodLine(lines: seq<Line>)
    ensures Read(After(lines), MakeExecutable()) == After(lines + [CHMOD_LINE])
  {
    FixedTexts();
    PlainWords();
    hide Read;
    ReadWithVariable(After(lines), "chmod", "+x", FILE);
  }

  // ---------------------------------------------------------------- the body

  /** Text without a delimiter line is taken over as it is. */
  lemma {:induction false} ReadBody(lines: seq<Line>, line: string, body: string, s: string)
    requires DELIMITER !in LinesFrom(line, s)
    ensures Read(InBody(lines, line, body), s + "\n") == InBody(lines, "", body + line + s + "\n")
    decreases |s|
  {
    var r := InBody(lines, line, body);
    assert Unquote(Literals(DELIMITER)) == DELIMITER;
    if s == "" {
      assert s + "\n" == "\n";
      ReadOne(r, '\n');
      assert body + line + "\n" == body + line + s + "\n";
    } else if s[0] == '\n' {
      assert (s + "\n")[0] == '\n' && (s + "\n")[1..] == s[1..] + "\n";
      assert Next(r, '\n') == InBody(lines, "", body + line + "\n");
      ReadBody(lines, "", body + line + "\n", s[1..]);
      assert body + line + "\n" + "" + s[1..] + "\n" == body + line + s + "\n";
    } else {
      assert (s + "\n")[0] == s[0] && (s + "\n")[1..] == s[1..] + "\n";
      assert Next(r, s[0]) == InBody(lines, line + [s[0]], body);
      ReadBody(lines, line + [s[0]], body, s[1..]);
      assert body + (line + [s[0]]) + s[1..] + "\n" == body + line + s + "\n";
    }
  }

  lemma {:induction false} ReadHereLine(lines: seq<Line>, line: string, body: string, s: string)
    requires '\n' !in s
    ensures Read(InBody(lines, line, body), s) == InBody(lines, line + s, body)
    decreases |s|
  {
    if s == "" {
      assert line + s == line;
    } else {
      ReadHereLine(lines, line + [s[0]], body, s[1..]);
      assert line + [s[0]] + s[1..] == line + s;
    }
  }

  function CatLine(body: string): Line {
    Line(CAT_TOKENS, [HereDoc(body, false)])
  }

  lemma ReadEnd(lines: seq<Line>, body: string)
    ensures Read(InBody(lines, "", body), DELIMITER + "\n") == After(lines + [CatLine(body)])
  {
    FixedTexts();
    ReadHereLine(lines, "", body, DELIMITER);
    assert "" + DELIMITER == DELIMITER;
    EndOfBody(lines, body);
    ReadThen(InBody(lines, "", body), DELIMITER, InBody(lines, DELIMITER, body), "\n", After(lines + [CatLine(body)]));
  }

  lemma EndOfBody(lines: seq<Line>, body: string)
    ensures Read(InBody(lines, DELIMITER, body), "\n") == After(lines + [CatLine(body)])
  {
    var r := InBody(lines, DELIMITER, body);
    QuotedDelimiter();
    assert r.pending[1..] == [] && r.docs + [HereDoc(body, false)] == [HereDoc(body, false)];
    assert EndHereLine(r, DELIMITER, body) == EndLine(r.(docs := [HereDoc(body, false)], pending := []));
    assert Next(r, '\n') == After(lines + [CatLine(body)]);
    ReadOne(r, '\n');
  }

  lemma QuotedDelimiter()
    ensures Unquote(Literals(DELIMITER)) == DELIMITER && AnyQuoted(Literals(DELIMITER))
  {
    var w := Literals(DELIMITER);
    assert |DELIMITER| > 0;
    assert w[0].quoting == Literal;
  }

  // ---------------------------------------------------------------- the theorem

  /** Everything the shell is given of a script, and everything it makes of the wrapper. */
  lemma {:induction false} ReadOnlyAddsLines(r: Reader, s: string)
    ensures r.lines <= Read(r, s).lines
    decreases |s|
  {
    if s != "" {
      NextOnlyAddsLines(r, s[0]);
      ReadOnlyAddsLines(Next(r, s[0]), s[1..]);
    }
  }

  lemma BeginOnlyAddsLines(r: Reader, c: char)
    ensures r.lines <= Begin(r, c).lines
  {
  }

  lemma ContinueOnlyAddsLines(r: Reader, w: Shell.Word, c: char)
    ensures r.lines <= Continue(r, w, c).lines
  {
    hide Begin;
    BeginOnlyAddsLines(EndWord(r, w), c);
  }

  lemma NextOnlyAddsLines(r: Reader, c: char)
    ensures r.lines <= Next(r, c).lines
  {
    hide Begin, Continue;
    match r.mode
    case Blank => BeginOnlyAddsLines(r, c);
    case InWord(w) => ContinueOnlyAddsLines(r, w, c);
    case AfterDollar(w) => ContinueOnlyAddsLines(r, w, c);
    case InOperator(op) => BeginOnlyAddsLines(EndOperator(r, op), c);
    case _ =>
  }

  /** The lines before the first one that is `stop`. */
  function UpTo(lines: seq<string>, stop: string): seq<string> {
    if lines == [] || lines[0] == stop then [] else [lines[0]] + UpTo(lines[1..], stop)
  }

  function Unlines(lines: seq<string>): string {
    if lines == [] then "" else lines[0] + "\n" + Unlines(lines[1..])
  }

  /** With a delimiter line inside, the here-document ends there: what is delivered is the lines before the first
      delimiter line, less than the script, and what comes after that line is read as commands. */
  lemma {:induction false} BodyEndsEarly(lines: seq<Line>, line: string, body: string, s: string, rest: string)
    returns (delivered: string, after: string)
    requires DELIMITER in LinesFrom(line, s)
    ensures delivered == body + Unlines(UpTo(LinesFrom(line, s), DELIMITER))
    ensures body + line + s + "\n" == delivered + DELIMITER + "\n" + after
    ensures Read(InBody(lines, line, body), s + "\n" + rest) == Read(After(lines + [CatLine(delivered)]), after + rest)
    decreases |s|
  {
    hide Next, Read, InBody, After, CatLine;
    if s == "" || s[0] == '\n' {
      after := if s == "" then "" else s[1..] + "\n";
      HereLineEnds(lines, line, body, s, after, rest);
      if line == DELIMITER {
        delivered := body;
        assert Unlines(UpTo(LinesFrom(line, s), DELIMITER)) == "";
        assert body + line + s + "\n" == delivered + DELIMITER + "\n" + after;
      } else {
        delivered, after := BodyEndsEarly(lines, "", body + line + "\n", s[1..], rest);
        UnlinesFirst(body, line, LinesFrom("", s[1..]));
        assert body + line + s + "\n" == body + line + "\n" + "" + s[1..] + "\n";
      }
    } else {
      HereLineGoesOn(lines, line, body, s, rest);
      delivered, after := BodyEndsEarly(lines, line + [s[0]], body, s[1..], rest);
      assert body + line + s + "\n" == body + (line + [s[0]]) + s[1..] + "\n";
    }
  }

  lemma HereLineEnds(lines: seq<Line>, line: string, body: string, s: string, after: string, rest: string)
    requires (s == "" && after == "") || (s != "" && s[0] == '\n' && after == s[1..] + "\n")
    ensures line == DELIMITER ==>
              Read(InBody(lines, line, body), s + "\n" + rest) == Read(After(lines + [CatLine(body)]), after + rest)
    ensures line != DELIMITER ==>
              Read(InBody(lines, line, body), s + "\n" + rest) ==
              Read(InBody(lines, "", body + line + "\n"), after + rest)
  {
    var r := InBody(lines, line, body);
    hide Read, CatLine;
    assert s + "\n" + rest == "\n" + (after + rest);
    ReadConcat(r, "\n", after + rest);
    if line == DELIMITER {
      EndOfBody(lines, body);
    } else {
      OtherLineEnds(lines, line, body);
      ReadOne(r, '\n');
    }
  }

  lemma OtherLineEnds(lines: seq<Line>, line: string, body: string)
    requires line != DELIMITER
    ensures Next(InBody(lines, line, body), '\n') == InBody(lines, "", body + line + "\n")
  {
    QuotedDelimiter();
  }

  lemma HereLineGoesOn(lines: seq<Line>, line: string, body: string, s: string, rest: string)
    requires s != "" && s[0] != '\n'
    ensures Read(InBody(lines, line, body), s + "\n" + rest) ==
            Read(InBody(lines, line + [s[0]], body), s[1..] + "\n" + rest)
  {
    var text := s + "\n" + rest;
    assert text[0] == s[0] && text[1..] == s[1..] + "\n" + rest;
    assert Next(InBody(lines, line, body), s[0]) == InBody(lines, line + [s[0]], body);
  }

  lemma UnlinesFirst(body: string, line: string, lines: seq<string>)
    requires line != DELIMITER
    ensures body + Unlines(UpTo([line] + lines, DELIMITER)) == body + line + "\n" + Unlines(UpTo(lines, DELIMITER))
  {
    assert ([line] + lines)[1..] == lines;
    assert UpTo([line] + lines, DELIMITER)[1..] == UpTo(lines, DELIMITER);
  }

  lemma ReadWholeWrapper(script: string, timeout: Option<int>, continueOnError: bool)
    requires !HasDelimiterLine(script)
    ensures Read(FRESH, WrapScript(script, timeout, continueOnError)) ==
        After(WrapperLines(script, timeout, continueOnError))
  {
    hide Read, WrapHead, WrapTail, InBody, RunLine, CatLine;
    var b := BeforeCat();
    ReadWrapHead();
    ReadBody(b, "", "", script);
    assert "" + "" + script + "\n" == script + "\n";
    ReadEnd(b, script + "\n");
    var cat := b + [CatLine(script + "\n")];
    ReadWrapTail(cat, timeout, continueOnError);
    WrapperLinesAre(script, timeout, continueOnError);
    ReadThen(FRESH, WrapHead(), InBody(b, "", ""), script + "\n", InBody(b, "", script + "\n"));
    ReadThen(FRESH, WrapHead() + (script + "\n"), InBody(b, "", script + "\n"), DELIMITER + "\n", After(cat));
    ReadThen(FRESH, WrapHead() + (script + "\n") + (DELIMITER + "\n"), After(cat), WrapTail(timeout, continueOnError),
      After(WrapperLines(script, timeout, continueOnError)));
    WrapperGroups(WrapHead(), script, DELIMITER, WrapTail(timeout, continueOnError));
  }

  lemma WrapperLinesAre(script: string, timeout: Option<int>, continueOnError: bool)
    ensures BeforeCat() + [CatLine(script + "\n")] + [CHMOD_LINE, RunLine(timeout, continueOnError)] ==
        WrapperLines(script, timeout, continueOnError)
  {
    hide RunLine;
  }

  lemma WrapperGroups(head: string, script: string, delimiter: string, tail: string)
    ensures head + (script + "\n") + (delimiter + "\n") + tail == head + script + "\n" + delimiter + "\n" + tail
  {
  }

  /** What becomes of a script with a delimiter line: the file gets the lines before it, and the shell reads what
      comes after that line, and the rest of the wrapper, as commands. */
  lemma CutAtTheDelimiter(script: string, timeout: Option<int>, continueOnError: bool) returns (after: string)
    requires HasDelimiterLine(script)
    ensures var delivered := Unlines(UpTo(LinesFrom("", script), DELIMITER));
            && script + "\n" == delivered + DELIMITER + "\n" + after
            && Read(FRESH, WrapScript(script, timeout, continueOnError)) ==
               Read(After(BeforeCat() + [CatLine(delivered)]),
                    after + (DELIMITER + "\n" + WrapTail(timeout, continueOnError)))
  {
    var tail := DELIMITER + "\n" + WrapTail(timeout, continueOnError);
    hide Read, WrapHead, WrapTail, InBody, CatLine, UpTo, Unlines, LinesFrom;
    ReadWrapHead();
    var delivered;
    delivered, after := BodyEndsEarly(BeforeCat(), "", "", script, tail);
    var before := Unlines(UpTo(LinesFrom("", script), DELIMITER));
    assert "" + before == before;
    assert "" + "" + script == script;
    EarlyGroups(WrapHead(), script, DELIMITER, WrapTail(timeout, continueOnError));
    ReadConcat(FRESH, WrapHead(), script + "\n" + tail);
  }

  /** Here-document round trip, exactly: the wrapper is read as meant, the script delivered with one newline added
      and without expansion and the remaining lines read as commands, if and only if no line of the script is the
      delimiter. */
  lemma HereDocRoundTrip(script: string, timeout: Option<int>, continueOnError: bool)
    ensures var r := Read(FRESH, WrapScript(script, timeout, continueOnError));
            (Complete(r) && AtEnd(r).comments == ["#!/bin/sh"]
              && AtEnd(r).lines == WrapperLines(script, timeout, continueOnError))
            <==> !HasDelimiterLine(script)
  {
    hide Read, WrapScript, WrapTail, HasDelimiterLine, LinesFrom, UpTo, Unlines, RunLine;
    if HasDelimiterLine(script) {
      var after := CutAtTheDelimiter(script, timeout, continueOnError);
      var r, delivered := Read(FRESH, WrapScript(script, timeout, continueOnError)),
        Unlines(UpTo(LinesFrom("", script), DELIMITER));
      assert |delivered| <= |script|;
      ReadOnlyAddsLines(After(BeforeCat() + [CatLine(delivered)]),
        after + (DELIMITER + "\n" + WrapTail(timeout, continueOnError)));
      assert r.lines[3] == CatLine(delivered);
      if Complete(r) {
        EndKeepsLines(r);
        assert AtEnd(r).lines[3] == CatLine(delivered);
        assert WrapperLines(script, timeout, continueOnError)[3] == CatLine(script + "\n");
      }
    } else {
      ReadWholeWrapper(script, timeout, continueOnError);
    }
  }

  lemma EndKeepsLines(r: Reader)
    requires Complete(r)
    ensures r.lines <= AtEnd(r).lines
  {
  }

  lemma EarlyGroups(head: string, script: string, delimiter: string, tail: string)
    ensures head + (script + "\n" + (delimiter + "\n" + tail)) == head + script + "\n" + delimiter + "\n" + tail
  {
  }
}
