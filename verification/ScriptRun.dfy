/** What becomes of a wrapped script when a shell runs it. */
module ScriptRun {
  import opened Basics
  import opened Shell
  import opened Script
  import opened Quoting
  import opened HereDocs
  import opened ShellRun

  lemma FixedCommands()
    ensures External("cat") && External("chmod") && External("rm") && CarriedOut("trap")
  {
    assert |"cat"| == 3 && "cat"[0] == 'c' && |"chmod"| == 5 && "chmod"[0] == 'c' && |"rm"| == 2 && "rm"[0] == 'r';
    assert |"true"| == 4;
    assert SpecialBuiltin("trap");
    if CarriedOut("cat") { CarriedOutShape("cat"); }
    if CarriedOut("chmod") { CarriedOutShape("chmod"); }
    if CarriedOut("rm") { CarriedOutShape("rm"); }
  }

  lemma PathIsExternal(p: string)
    requires '/' in p
    ensures External(p)
  {
    if CarriedOut(p) { CarriedOutShape(p); }
  }

  // ---------------------------------------------------------------- the kinds of line, for any names

  /** The name ends at the first `=`, and the command is what is left between the parentheses. */
  lemma SubstitutionParts(w: Shell.Word, a: string, x: string)
    requires IsSubstitution(w, a, x)
    ensures |a| + 4 <= |w| && w[|a|].c == '=' && Unquote(w[..|a|]) == a && Unquote(w[|a| + 3..|w| - 1]) == x
    ensures forall i :: 0 <= i < |a| ==> w[i].c != '='
  {
    forall i | 0 <= i < |a|
      ensures w[i].c != '='
    {
      assert a[i] in a;
    }
  }

  /** A word is an assignment in at most one way. */
  lemma OneSubstitution(w: Shell.Word, a: string, x: string, b: string, y: string)
    requires IsSubstitution(w, a, x) && IsSubstitution(w, b, y)
    ensures a == b && x == y
  {
    SubstitutionParts(w, a, x);
    SubstitutionParts(w, b, y);
    hide IsSubstitution, Unquote;
    assert |a| == |b|;
  }

  lemma RunsAssignment<W>(c: Commands<W>, sh: Sh<W>, name: string, command: string)
    requires IsSubstitution(Substitution(name, command), name, command)
    ensures RunOr(c, sh, [Token.Word(Substitution(name, command))], []) == Some(RunAssignment(c, sh, name, command))
  {
    var w := Substitution(name, command);
    var tokens := [Token.Word(w)];
    hide IsSubstitution, Substitution, RunAssignment;
    OrComesAfterWords(tokens, []);
    assert tokens + [] == tokens && tokens[..1] == tokens;
    ParseWords(tokens, NOTHING);
    assert NOTHING.words + WordsOf(tokens) == [w];
    forall a, x | IsSubstitution(w, a, x)
      ensures a == name && x == command
    {
      OneSubstitution(w, name, command, a, x);
    }
  }

  lemma NoEquals(s: string)
    requires '=' !in s
    ensures Letter('=', Bare) !in Bares(s)
  {
  }

  /** A line of words that calls a command from outside the shell. */
  lemma RunsExternal<W>(c: Commands<W>, sh: Sh<W>, tokens: seq<Token>, argv: seq<string>)
    requires Yields(tokens, sh.vars, argv) && External(argv[0])
    ensures var r := c.run(sh.world, argv, "");
            RunOr(c, sh, tokens, []) == Some(sh.(world := r.world, status := r.status))
  {
    RunIgnoring(c, sh, tokens, argv, false);
    assert tokens + OrTrueTokens(false) == tokens;
  }

  /** `command argument $name`. */
  lemma RunsOnFile<W>(c: Commands<W>, sh: Sh<W>, command: string, argument: string, name: string)
    requires Plain(command) && command != "" && External(command) && '=' !in command && Plain(argument)
    requires Expand(Variable(name), sh.vars).Some?
    ensures var r := c.run(sh.world, [command, argument, Expand(Variable(name), sh.vars).value], "");
            RunOr(c, sh, [PlainToken(command), PlainToken(argument), Token.Word(Variable(name))], []) ==
            Some(sh.(world := r.world, status := r.status))
  {
    ExpandPlain(command, sh.vars);
    ExpandPlain(argument, sh.vars);
    NoEquals(command);
    hide RunOr, Expand, External, Bares, Variable;
    RunsExternal(c, sh, [PlainToken(command), PlainToken(argument), Token.Word(Variable(name))],
      [command, argument, Expand(Variable(name), sh.vars).value]);
  }

  /** `trap "action" EXIT`. */
  lemma RunsTrap<W>(c: Commands<W>, sh: Sh<W>, trap: string, action: string, exit: string)
    requires Plain(trap) && '=' !in trap && Plain(exit) && trap == "trap" && exit == "EXIT" && CarriedOut(trap)
    requires Expand(Doubles(action), sh.vars).Some? && IsAction(Expand(Doubles(action), sh.vars).value)
    ensures RunOr(c, sh, [PlainToken(trap), Token.Word(Doubles(action)), PlainToken(exit)], []) ==
            Some(sh.(trap := Expand(Doubles(action), sh.vars), status := 0))
  {
    ExpandPlain(trap, sh.vars);
    ExpandPlain(exit, sh.vars);
    NoEquals(trap);
    var tokens := [PlainToken(trap), Token.Word(Doubles(action)), PlainToken(exit)];
    var argv := [trap, Expand(Doubles(action), sh.vars).value, exit];
    TrapBuiltin(c, sh, argv);
    hide RunOr, Expand, Bares, Doubles, RunArgv, CarriedOut, Digits;
    assert Yields(tokens, sh.vars, argv);
    RunIgnoring(c, sh, tokens, argv, false);
    assert tokens + OrTrueTokens(false) == tokens;
  }

  /** An action, and nothing else that the first operand of `trap` could be. */
  predicate IsAction(action: string) {
    !("-" <= action) && !Digits(action)
  }

  lemma TrapBuiltin<W>(c: Commands<W>, sh: Sh<W>, argv: seq<string>)
    requires |argv| == 3 && CarriedOut(argv[0]) && argv[0] == "trap" && argv[2] == "EXIT" && IsAction(argv[1])
    ensures RunArgv(c, sh, argv, "", None) == Some(sh.(trap := Some(argv[1]), status := 0))
  {
    hide CarriedOut, Digits;
    assert |["set", "-e"]| == 2 && "command"[0] == 'c' && "trap"[0] == 't';
  }

  lemma ParsesCopy(command: Shell.Word, file: Shell.Word, delimiter: Shell.Word, into: Token, here: Token)
    requires into == Operator(">") && here == Operator("<<")
    ensures ParseSimple([Token.Word(command), into, Token.Word(file), here, Token.Word(delimiter)], NOTHING) ==
        Some(Simple([command], Some(file), true))
    ensures into != Operator("||") && here != Operator("||")
  {
    var t5, t4, t3, t2, t1 := Token.Word(delimiter), here, Token.Word(file), into, Token.Word(command);
    assert "<<"[0] == '<' && ">"[0] == '>' && "||"[0] == '|';
    var s1 := NOTHING.(words := NOTHING.words + [command]);
    assert s1.words == [command];
    var s2 := s1.(into := Some(file));
    assert [t4, t5][2..] == [];
    assert ParseSimple([], s2.(here := true)) == Some(s2.(here := true));
    assert ParseSimple([t4, t5], s2) == Some(s2.(here := true));
    assert [t2, t3, t4, t5][2..] == [t4, t5];
    assert ParseSimple([t2, t3, t4, t5], s1) == Some(s2.(here := true));
    assert [t1, t2, t3, t4, t5][1..] == [t2, t3, t4, t5];
  }

  /** `command > $name << delimiter`, with a here-document that is not expanded. */
  lemma RunsCopy<W>(c: Commands<W>, sh: Sh<W>, command: string, name: string, delimiter: Shell.Word, body: string)
    requires Plain(command) && command != "" && External(command) && '=' !in command
    requires Expand(Variable(name), sh.vars).Some?
    ensures var r := c.run(sh.world, [command], body);
            RunOr(c, sh, [PlainToken(command), Operator(">"), Token.Word(Variable(name)), Operator("<<"),
              Token.Word(delimiter)], [HereDoc(body, false)]) ==
            Some(sh.(world := c.store(r.world, Expand(Variable(name), sh.vars).value, r.output), status := r.status))
  {
    var tokens := [PlainToken(command), Operator(">"), Token.Word(Variable(name)), Operator("<<"),
      Token.Word(delimiter)];
    ParsesCopy(Bares(command), Variable(name), delimiter, Operator(">"), Operator("<<"));
    ExpandPlain(command, sh.vars);
    NoEquals(command);
    hide Expand, Variable, ParseSimple, CarriedOut;
    RunsOneCommand(c, sh, tokens, Bares(command), command, Variable(name), body);
  }

  lemma RunsOneCommand<W>(c: Commands<W>, sh: Sh<W>, tokens: seq<Token>, word: Shell.Word, command: string,
                          file: Shell.Word, body: string)
    requires ParseSimple(tokens, NOTHING) == Some(Simple([word], Some(file), true))
    requires forall i :: 0 <= i < |tokens| ==> tokens[i] != Operator("||")
    requires Letter('=', Bare) !in word && Expand(word, sh.vars) == Some(command) && External(command)
    requires Expand(file, sh.vars).Some?
    ensures var r := c.run(sh.world, [command], body);
            RunOr(c, sh, tokens, [HereDoc(body, false)]) ==
            Some(sh.(world := c.store(r.world, Expand(file, sh.vars).value, r.output), status := r.status))
  {
    hide Expand, ExpandAll, ParseSimple, CarriedOut, IsSubstitution, FirstOr, Builtin;
    OrComesAfterWords(tokens, []);
    assert tokens + [] == tokens && tokens[..|tokens|] == tokens;
    ExpandWords([word], sh.vars, [command]);
    if a, x :| IsSubstitution(word, a, x) {
      SubstitutionHasEquals(word, a, x);
      assert false;
    }
  }

  // ---------------------------------------------------------------- the lines of the wrapper

  /** A usable path: what `mktemp` prints when it succeeds. */
  ghost predicate IsPath(p: string) {
    Plain(p) && '/' in p
  }

  lemma PathsAreUsable(p: string)
    requires IsPath(p)
    ensures p != "" && Unsplittable(p) && IsAction(RM + p)
  {
    assert (RM + p)[0] == 'r' && "-"[0] == '-';
    forall i | 0 <= i < |p|
      ensures PlainChar(p[i])
    {
      assert p[i] in p;
    }
  }

  lemma FixedNames()
    ensures FILE != "" && (forall c :: c in FILE ==> NameChar(c)) && Plain("mktemp")
    ensures '$' !in RM && '`' !in RM
    ensures '=' !in "trap" && '=' !in "cat" && '=' !in "chmod"
  {
  }

  lemma ExpandFile(name: string, vars: map<string, string>)
    requires name != "" && (forall c :: c in name ==> NameChar(c))
    requires name in vars && Unsplittable(vars[name])
    ensures Expand(Variable(name), vars) == Some(vars[name])
  {
    assert Variable(name) == [Letter('$', Bare)] + Marked(name, Bare);
    hide Expand, Variable;
    ExpandVariable(name, vars, Bare);
  }

  lemma ExpandAction(text: string, name: string, vars: map<string, string>)
    requires '$' !in text && '`' !in text && name != "" && (forall c :: c in name ==> NameChar(c)) && name in vars
    ensures Expand(Doubles(text + ("$" + name)), vars) == Some(text + vars[name])
  {
    assert Doubles(text + ("$" + name)) == Marked(text, Double) + ([Letter('$', Double)] + Marked(name, Double));
    hide Expand, Doubles;
    ExpandInDoubleQuotes(text, name, vars);
  }

  lemma RunsAssignLine<W>(c: Commands<W>, sh: Sh<W>)
    ensures RunOr(c, sh, ASSIGN_LINE.tokens, ASSIGN_LINE.docs) == Some(RunAssignment(c, sh, FILE, "mktemp"))
  {
    FixedNames();
    hide RunOr, Substitution;
    RunsAssignment(c, sh, FILE, "mktemp");
  }

  lemma RunsTrapLine<W>(c: Commands<W>, sh: Sh<W>)
    requires FILE in sh.vars && IsAction(RM + sh.vars[FILE])
    ensures RunOr(c, sh, TRAP_LINE.tokens, TRAP_LINE.docs) == Some(sh.(trap := Some(RM + sh.vars[FILE]), status := 0))
  {
    FixedNames();
    FixedCommands();
    PlainWords();
    hide RunOr, Expand, Doubles, CarriedOut, Digits;
    ExpandAction(RM, FILE, sh.vars);
    RunsTrap(c, sh, "trap", CLEAN_UP, "EXIT");
  }

  lemma RunsCatLine<W>(c: Commands<W>, sh: Sh<W>, body: string)
    requires FILE in sh.vars && Unsplittable(sh.vars[FILE])
    ensures var r := c.run(sh.world, ["cat"], body);
            RunOr(c, sh, CatLine(body).tokens, CatLine(body).docs) ==
            Some(sh.(world := c.store(r.world, sh.vars[FILE], r.output), status := r.status))
  {
    FixedNames();
    FixedCommands();
    PlainWords();
    hide RunOr, Expand, Literals, Variable, External;
    ExpandFile(FILE, sh.vars);
    RunsCopy(c, sh, "cat", FILE, Literals(DELIMITER), body);
  }

  lemma RunsChmodLine<W>(c: Commands<W>, sh: Sh<W>)
    requires FILE in sh.vars && Unsplittable(sh.vars[FILE])
    ensures var r := c.run(sh.world, ["chmod", "+x", sh.vars[FILE]], "");
            RunOr(c, sh, CHMOD_LINE.tokens, CHMOD_LINE.docs) == Some(sh.(world := r.world, status := r.status))
  {
    FixedNames();
    FixedCommands();
    PlainWords();
    hide RunOr, Expand, Variable, External;
    ExpandFile(FILE, sh.vars);
    RunsOnFile(c, sh, "chmod", "+x", FILE);
  }

  /** The last line runs the file, under the timeout and with errors ignored as asked for. */
  lemma RunsBody<W>(c: Commands<W>, sh: Sh<W>, timeout: Option<int>, continueOnError: bool)
    requires FILE in sh.vars && IsPath(sh.vars[FILE])
    ensures var r := c.run(sh.world, TimeoutArgs(timeout) + [sh.vars[FILE]], "");
            RunOr(c, sh, RunLine(timeout, continueOnError).tokens, []) ==
            Ignore(Some(sh.(world := r.world, status := r.status)), continueOnError)
  {
    var tokens, argv := TimeoutTokens(timeout) + [SCRIPT_FILE], TimeoutArgs(timeout) + [sh.vars[FILE]];
    TimeoutYields(timeout, sh.vars);
    TimeoutIsExternal();
    PathIsExternal(sh.vars[FILE]);
    PathsAreUsable(sh.vars[FILE]);
    FileYields(sh.vars);
    hide RunOr, Expand, Variable, CarriedOut;
    assert External(argv[0]);
    RunIgnoring(c, sh, tokens, argv, continueOnError);
  }

  lemma FileYields(vars: map<string, string>)
    requires FILE in vars && Unsplittable(vars[FILE])
    ensures Yields([SCRIPT_FILE], vars, [vars[FILE]])
  {
    FixedNames();
    ExpandFile(FILE, vars);
    hide Expand, Unsplittable;
    assert !NameChar('=');
    assert Letter('=', Bare) !in Bares(FILE);
  }

  // ---------------------------------------------------------------- the exit status of a wrapped script

  /** The shell before each line after `set -e`, when every line so far has succeeded. */
  ghost function Made<W>(c: Commands<W>, world: W): Sh<W> {
    var made := c.substitute(world, "mktemp");
    Sh(made.world, map[FILE := made.output], true, None, made.status, false, None)
  }

  ghost function Path<W>(c: Commands<W>, world: W): string {
    c.substitute(world, "mktemp").output
  }

  ghost function Trapped<W>(c: Commands<W>, world: W): Sh<W> {
    Made(c, world).(trap := Some(RM + Path(c, world)), status := 0)
  }

  ghost function Copied<W>(c: Commands<W>, world: W, script: string): Sh<W> {
    var sh := Trapped(c, world);
    var copied := c.run(sh.world, ["cat"], script + "\n");
    sh.(world := c.store(copied.world, Path(c, world), copied.output), status := copied.status)
  }

  ghost function Prepared<W>(c: Commands<W>, world: W, script: string): Sh<W> {
    var sh := Copied(c, world, script);
    var ready := c.run(sh.world, ["chmod", "+x", Path(c, world)], "");
    sh.(world := ready.world, status := ready.status)
  }

  /** The wrapper's own commands succeed: `mktemp`, `cat` and `chmod` return zero. */
  ghost predicate Helped<W>(c: Commands<W>, world: W, script: string) {
    Made(c, world).status == 0 && Copied(c, world, script).status == 0 && Prepared(c, world, script).status == 0
  }

  /** The end of the wrapper once there is a file: the trap removes it, and a removal that fails gives its status to
      the whole, the shell being under `set -e`. */
  ghost function Cleaned<W>(c: Commands<W>, world: W, path: string, status: int): Exited<W> {
    var removal := c.run(world, ["rm", "-f", path], "");
    Exited(removal.world, if removal.status != 0 then removal.status else status)
  }

  ghost function ScriptBody<W>(c: Commands<W>, world: W, script: string, timeout: Option<int>): Ran<W> {
    c.run(Prepared(c, world, script).world, TimeoutArgs(timeout) + [Path(c, world)], "")
  }

  /** And so does the removal of the file, after the script has run. */
  ghost predicate HelpedThroughout<W>(c: Commands<W>, world: W, script: string, timeout: Option<int>) {
    && Helped(c, world, script)
    && c.run(ScriptBody(c, world, script, timeout).world, ["rm", "-f", Path(c, world)], "").status == 0
  }

  /** What a wrapped script comes to: the status of the first helper that fails, and otherwise that of the file that
      the script was copied to, run under the timeout, or zero when errors are ignored; and once there is a file, that
      of its removal if it fails. */
  ghost function ScriptOutcome<W>(c: Commands<W>, world: W, script: string, continueOnError: bool,
                                  timeout: Option<int>): Exited<W>
  {
    var made, copied, ready := Made(c, world), Copied(c, world, script), Prepared(c, world, script);
    if made.status != 0 then Exited(made.world, made.status)
    else if copied.status != 0 then Cleaned(c, copied.world, Path(c, world), copied.status)
    else if ready.status != 0 then Cleaned(c, ready.world, Path(c, world), ready.status)
    else
      var body := ScriptBody(c, world, script, timeout);
      Cleaned(c, body.world, Path(c, world), if continueOnError then 0 else body.status)
  }

  /** Reading three plain words. */
  lemma ReadThreeWords(a: string, b: string, d: string)
    requires Plain(a) && Plain(b) && Plain(d) && a != "" && b != "" && d != ""
    ensures var r := Read(FRESH, (a + " ") + (b + " ") + d);
            Complete(r) && AtEnd(r).lines == [Line([PlainToken(a), PlainToken(b), PlainToken(d)], [])]
  {
    var r1 := EndWord(FRESH, Bares(a));
    var r2 := EndWord(r1, Bares(b));
    ReadPlainThenBlank(FRESH, a);
    ReadPlainThenBlank(r1, b);
    ReadPlainWord(r2, d);
    hide Read, Bares;
    ReadThen(FRESH, a + " ", r1, b + " ", r2);
    ReadThen(FRESH, (a + " ") + (b + " "), r2, d, r2.(mode := InWord(Bares(d))));
    var tokens := [PlainToken(a), PlainToken(b), PlainToken(d)];
    assert [] + [PlainToken(a)] + [PlainToken(b)] + [PlainToken(d)] == tokens;
    assert [] + [Line(tokens, [])] == [Line(tokens, [])];
  }

  lemma RemovalWords()
    ensures RM == ("rm" + " ") + ("-f" + " ") && Plain("rm") && Plain("-f") && '=' !in "rm"
  {
  }

  /** The trap action removes the file. */
  lemma RemovalRuns<W>(c: Commands<W>, sh: Sh<W>, path: string)
    requires IsPath(path) && sh.errexit && !sh.exited
    ensures var r := c.run(sh.world, ["rm", "-f", path], "");
            var inside := sh.(trap := None, saved := Some(sh.status), world := r.world, status := r.status);
            RunAction(c, sh, RM + path) == Some(if r.status != 0 then inside.(exited := true) else inside)
  {
    RemovalWords();
    PathsAreUsable(path);
    ReadThreeWords("rm", "-f", path);
    var line := Line([PlainToken("rm"), PlainToken("-f"), PlainToken(path)], []);
    var inside := sh.(trap := None, saved := Some(sh.status));
    ExpandPlain("rm", inside.vars);
    ExpandPlain("-f", inside.vars);
    ExpandPlain(path, inside.vars);
    NoEquals("rm");
    FixedCommands();
    hide Read, Expand, Bares, RunOr, RunLines, External, IsPath, Plain, Unsplittable, IsAction;
    assert Yields(line.tokens, inside.vars, ["rm", "-f", path]);
    RunsExternal(c, inside, line.tokens, ["rm", "-f", path]);
    RunLastLine(c, inside, line);
  }

  /** However the lines end, once the trap is set the file is removed last. */
  lemma EndsClean<W>(c: Commands<W>, sh: Sh<W>, path: string)
    requires IsPath(path) && sh.errexit && sh.trap == Some(RM + path)
    ensures Ended(c, Some(sh)) == Some(Cleaned(c, sh.world, path, sh.status))
  {
    RemovalRuns(c, sh.(exited := false), path);
    hide RunAction;
  }

  /** The lines of the wrapper after `set -e`. */
  function Steps(script: string, continueOnError: bool, timeout: Option<int>): seq<Line> {
    [ASSIGN_LINE] + ([TRAP_LINE] + ([CatLine(script + "\n")] + ([CHMOD_LINE] + [RunLine(timeout, continueOnError)])))
  }

  lemma InOrder(a: Line, b: Line, c: Line, d: Line, e: Line, f: Line)
    ensures [a] + ([b] + ([c] + ([d] + ([e] + [f])))) == [a, b, c] + [d, e, f]
  {
  }

  /** Running the wrapper is running its lines after `set -e`. */
  lemma RunsWrapper<W>(c: Commands<W>, world: W, script: string, continueOnError: bool, timeout: Option<int>)
    requires !HasDelimiterLine(script)
    ensures RunText(c, world, WrapScript(script, timeout, continueOnError)) ==
            Ended(c, RunLines(c, Started(world).(errexit := true), Steps(script, continueOnError, timeout)))
  {
    HereDocRoundTrip(script, timeout, continueOnError);
    var cat, run := CatLine(script + "\n"), RunLine(timeout, continueOnError);
    RunHead(c, world, true, Steps(script, continueOnError, timeout));
    InOrder(SET_E_LINE, ASSIGN_LINE, TRAP_LINE, cat, CHMOD_LINE, run);
    hide Read, WrapScript, RunLines, RunLine, HasDelimiterLine;
  }

  /** Under `set -e` a failing line is the last. */
  lemma FailingLine<W>(c: Commands<W>, sh: Sh<W>, line: Line, lines: seq<Line>)
    requires sh.errexit && !sh.exited && RunOr(c, sh, line.tokens, line.docs).Some?
    requires var r := RunOr(c, sh, line.tokens, line.docs).value; r.status != 0 && r.errexit
    ensures RunLines(c, sh, [line] + lines) == Some(RunOr(c, sh, line.tokens, line.docs).value.(exited := true))
  {
    hide RunOr;
    assert ([line] + lines)[1..] == lines;
  }

  /** From `mktemp` on. */
  lemma RunsFromFile<W>(c: Commands<W>, world: W, rest: seq<Line>)
    requires Made(c, world).status == 0 ==> IsPath(Path(c, world))
    ensures var s0 := Started(world).(errexit := true);
            RunLines(c, s0, [ASSIGN_LINE] + ([TRAP_LINE] + rest)) ==
            if Made(c, world).status == 0 then RunLines(c, Trapped(c, world), rest)
              else Some(Made(c, world).(exited := true))
  {
    var s0, s1 := Started(world).(errexit := true), Made(c, world);
    assert s0.vars[FILE := Path(c, world)] == map[FILE := Path(c, world)];
    RunsAssignLine(c, s0);
    hide RunOr, RunLines;
    if s1.status == 0 {
      PathsAreUsable(Path(c, world));
      RunsTrapLine(c, s1);
      FirstLine(c, s0, s1, ASSIGN_LINE, [TRAP_LINE] + rest);
      FirstLine(c, s1, Trapped(c, world), TRAP_LINE, rest);
    } else {
      FailingLine(c, s0, ASSIGN_LINE, [TRAP_LINE] + rest);
    }
  }

  /** From `cat` on. */
  lemma RunsFromCopy<W>(c: Commands<W>, world: W, script: string, rest: seq<Line>)
    requires IsPath(Path(c, world))
    ensures RunLines(c, Trapped(c, world), [CatLine(script + "\n")] + ([CHMOD_LINE] + rest)) ==
            if Copied(c, world, script).status != 0 then Some(Copied(c, world, script).(exited := true))
            else if Prepared(c, world, script).status != 0 then Some(Prepared(c, world, script).(exited := true))
            else RunLines(c, Prepared(c, world, script), rest)
  {
    var s2, s3, s4 := Trapped(c, world), Copied(c, world, script), Prepared(c, world, script);
    var cat := CatLine(script + "\n");
    PathsAreUsable(Path(c, world));
    RunsCatLine(c, s2, script + "\n");
    RunsChmodLine(c, s3);
    hide RunOr, RunLines, CatLine;
    if s3.status != 0 {
      FailingLine(c, s2, cat, [CHMOD_LINE] + rest);
    } else {
      FirstLine(c, s2, s3, cat, [CHMOD_LINE] + rest);
      if s4.status != 0 {
        FailingLine(c, s3, CHMOD_LINE, rest);
      } else {
        FirstLine(c, s3, s4, CHMOD_LINE, rest);
      }
    }
  }

  /** The lines of the wrapper from `cat` on, and the end. */
  lemma EndsFromCopy<W>(c: Commands<W>, world: W, script: string, continueOnError: bool, timeout: Option<int>)
    requires Made(c, world).status == 0 && IsPath(Path(c, world))
    ensures Ended(c, RunLines(c, Trapped(c, world),
                              [CatLine(script + "\n")] + ([CHMOD_LINE] + [RunLine(timeout, continueOnError)]))) ==
            Some(ScriptOutcome(c, world, script, continueOnError, timeout))
  {
    var run, sh := RunLine(timeout, continueOnError), Prepared(c, world, script);
    var path := Path(c, world);
    assert run.docs == [];
    hide RunOr, RunLines, RunLine, CatLine, TimeoutArgs, IsPath, Ended, RunAction;
    RunsFromCopy(c, world, script, [run]);
    if Copied(c, world, script).status != 0 {
      EndsClean(c, Copied(c, world, script).(exited := true), path);
    } else if sh.status != 0 {
      EndsClean(c, sh.(exited := true), path);
    } else {
      RunsBody(c, sh, timeout, continueOnError);
      RunLastLine(c, sh, run);
      var body := ScriptBody(c, world, script, timeout);
      var last := sh.(world := body.world, status := if continueOnError then 0 else body.status);
      EndsClean(c, last, path);
      EndsClean(c, last.(exited := true), path);
    }
  }

  /** The exit status of a wrapped script that has no delimiter line, whichever of the wrapper's own commands fail;
      a `mktemp` that succeeds prints a path. */
  lemma ScriptWrapperStatus<W>(c: Commands<W>, world: W, script: string, continueOnError: bool, timeout: Option<int>)
    requires !HasDelimiterLine(script) && (Made(c, world).status == 0 ==> IsPath(Path(c, world)))
    ensures RunText(c, world, WrapScript(script, timeout, continueOnError)) ==
            Some(ScriptOutcome(c, world, script, continueOnError, timeout))
  {
    hide RunText, WrapScript, RunOr, RunLines, RunLine, CatLine, HasDelimiterLine, TimeoutArgs, RunAction;
    RunsWrapper(c, world, script, continueOnError, timeout);
    RunsFromFile(c, world, [CatLine(script + "\n")] + ([CHMOD_LINE] + [RunLine(timeout, continueOnError)]));
    if Made(c, world).status == 0 {
      EndsFromCopy(c, world, script, continueOnError, timeout);
    }
  }

  /** Ignoring errors, exactly: the wrapper's status is zero if and only if all three helpers return zero, and so does
      the removal of the file after the script has run. What the script itself returns makes no difference. */
  lemma IgnoredScriptExactly<W>(c: Commands<W>, world: W, script: string, timeout: Option<int>)
    requires !HasDelimiterLine(script) && (Made(c, world).status == 0 ==> IsPath(Path(c, world)))
    ensures RunText(c, world, WrapScript(script, timeout, true)).Some?
    ensures RunText(c, world, WrapScript(script, timeout, true)).value.status == 0 <==>
            HelpedThroughout(c, world, script, timeout)
  {
    ScriptWrapperStatus(c, world, script, true, timeout);
    hide RunText, WrapScript;
  }

  /** Without a temporary file the script is never run and the wrapper fails as `mktemp` did, whatever `onError`
      says. */
  lemma WithoutAFileNothingRuns<W>(c: Commands<W>, world: W, script: string, continueOnError: bool,
                                   timeout: Option<int>)
    requires !HasDelimiterLine(script) && Made(c, world).status != 0
    ensures RunText(c, world, WrapScript(script, timeout, continueOnError)) ==
        Some(Exited(Made(c, world).world, Made(c, world).status))
  {
    ScriptWrapperStatus(c, world, script, continueOnError, timeout);
    hide RunText, WrapScript;
  }

  // ---------------------------------------------------------------- the preamble

  lemma {:induction false} FirstLineOf(line: string, first: string, rest: string)
    requires '\n' !in first
    ensures LinesFrom(line, first + "\n" + rest) == [line + first] + LinesFrom("", rest)
    decreases |first|
  {
    var s := first + "\n" + rest;
    if first == "" {
      assert s[0] == '\n' && s[1..] == rest && line + first == line;
    } else {
      assert s[0] == first[0] && s[1..] == first[1..] + "\n" + rest;
      FirstLineOf(line + [first[0]], first[1..], rest);
      assert line + [first[0]] + first[1..] == line + first;
    }
  }

  lemma PreambleLines()
    ensures SHEBANG + SET_E == ("#!/bin/sh" + "\n") + ("set -e" + "\n") && '\n' !in "#!/bin/sh" && '\n' !in "set -e"
    ensures "#!/bin/sh" != DELIMITER && "set -e" != DELIMITER
  {
    assert |"#!/bin/sh"| == 9 && |"set -e"| == 6 && |DELIMITER| == 17;
  }

  /** Whether the wrapped script has a delimiter line is a question about the script as it was submitted. */
  lemma PreambleHasNoDelimiter(script: string)
    ensures HasDelimiterLine(WithPreamble(script)) <==> HasDelimiterLine(script)
  {
    if !HasShebang(script) {
      PreambleLines();
      TwoLines("#!/bin/sh", "set -e", script);
    }
  }

  lemma TwoLines(a: string, b: string, s: string)
    requires '\n' !in a && '\n' !in b
    ensures LinesFrom("", (a + "\n") + (b + "\n") + s) == [a, b] + LinesFrom("", s)
  {
    assert (a + "\n") + (b + "\n") + s == a + "\n" + (b + "\n" + s);
    FirstLineOf("", a, b + "\n" + s);
    FirstLineOf("", b, s);
    assert "" + a == a && "" + b == b;
    assert [a] + ([b] + LinesFrom("", s)) == [a, b] + LinesFrom("", s);
  }
}
