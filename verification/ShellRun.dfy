/** Running what was read: simple commands, `||` lists (IEEE Std 1003.1-2017, XCU, section 2.9.3), `set -e`, the
    EXIT trap, and the exit status of the whole. Commands outside the shell are arbitrary, but do not signal it. */
module ShellRun {
  import opened Basics
  import opened Text
  import opened Shell
  import opened Script
  import opened Quoting
  import opened HereDocs
  import Duration

  datatype Ran<W> = Ran(world: W, status: int, output: string)

  /** What the world does for the shell: run a command on some input, run a command substitution (its output comes
      without trailing newlines), store output in a file. */
  datatype Commands<!W> = Commands(
    run: (W, seq<string>, string) -> Ran<W>,
    substitute: (W, string) -> Ran<W>,
    store: (W, string, string) -> W)

  /** The state of a shell. Inside a trap action, `saved` is the status that the shell had before it. */
  datatype Sh<W> = Sh(world: W, vars: map<string, string>, errexit: bool, trap: Option<string>, status: int,
    exited: bool, saved: Option<int>)

  // ---------------------------------------------------------------- expansion

  predicate NameChar(c: char) {
    'a' <= c <= 'z' || 'A' <= c <= 'Z' || '0' <= c <= '9' || c == '_'
  }

  predicate GlobChar(c: char) {
    c == '*' || c == '?' || c == '[' || c == '~'
  }

  /** A value that stands for itself even outside quotes. */
  predicate Unsplittable(v: string) {
    v != "" && forall i :: 0 <= i < |v| ==> v[i] !in [' ', '\t', '\n'] && !GlobChar(v[i])
  }

  function NameLength(w: Shell.Word, q: Shell.Quoting): (n: nat)
    ensures n <= |w|
  {
    if w != [] && w[0].quoting == q && NameChar(w[0].c) then 1 + NameLength(w[1..], q) else 0
  }

  function Prepend(s: string, rest: Option<string>): Option<string> {
    if rest.Some? then Some(s + rest.value) else None
  }

  /** Parameter expansion and quote removal; None where the result is not one word known here. */
  function Expand(w: Shell.Word, vars: map<string, string>): Option<string>
    decreases |w|
  {
    if w == [] then Some("")
    else
      var l := w[0];
      if l.quoting != Literal && l.c == '$' then
        var n := NameLength(w[1..], l.quoting);
        var name := Unquote(w[1..1 + n]);
        if n == 0 || name !in vars || (l.quoting == Bare && !Unsplittable(vars[name])) then None
        else Prepend(vars[name], Expand(w[1 + n..], vars))
      else if l.quoting != Literal && l.c == '`' then None
      else if l.quoting == Bare && GlobChar(l.c) then None
      else Prepend([l.c], Expand(w[1..], vars))
  }

  function ExpandAll(words: seq<Shell.Word>, vars: map<string, string>): Option<seq<string>> {
    if words == [] then Some([])
    else
      var first, rest := Expand(words[0], vars), ExpandAll(words[1..], vars);
      if first.Some? && rest.Some? then Some([first.value] + rest.value) else None
  }

  // ---------------------------------------------------------------- simple commands

  datatype Simple = Simple(words: seq<Shell.Word>, into: Option<Shell.Word>, here: bool)

  function ParseSimple(tokens: seq<Token>, s: Simple): Option<Simple>
    decreases |tokens|
  {
    if tokens == [] then Some(s)
    else if tokens[0].Word? then ParseSimple(tokens[1..], s.(words := s.words + [tokens[0].word]))
    else if |tokens| > 1 && tokens[1].Word? && tokens[0].op == ">" then
      ParseSimple(tokens[2..], s.(into := Some(tokens[1].word)))
    else if |tokens| > 1 && tokens[1].Word? && tokens[0].op == "<<" then ParseSimple(tokens[2..], s.(here := true))
    else None
  }

  const NOTHING := Simple([], None, false)

  /** The special built-in utilities (section 2.14): the shell itself carries them out. */
  predicate SpecialBuiltin(name: string) {
    name in ["break", ":", "continue", ".", "eval", "exec", "exit", "export", "readonly", "return", "set", "shift",
      "times", "trap", "unset"]
  }

  /** Names that the shell does not look for in the file system: the special built-in utilities, `command`, which
      has the shell run what follows, and two names that section 2.9.1 leaves to the shell and that would run a
      special built-in utility. */
  predicate CarriedOut(name: string) {
    SpecialBuiltin(name) || name == "command" || name == "builtin" || name == "source"
  }

  /** Without leading `command` words. */
  function Stripped(argv: seq<string>): (bare: seq<string>)
    requires argv != []
    ensures bare != []
  {
    if argv[0] == "command" && |argv| > 1 && !("-" <= argv[1]) then Stripped(argv[1..]) else argv
  }

  predicate Digits(s: string) {
    s != "" && forall i :: 0 <= i < |s| ==> '0' <= s[i] <= '9'
  }

  /** A number that every shell takes for an exit status: beyond nine digits some refuse it. */
  predicate ExitNumber(s: string) {
    Digits(s) && |s| < 10
  }

  predicate IsSetE(argv: seq<string>) {
    argv == ["set", "-e"]
  }

  /** `trap action EXIT`, neither an option, a reset, nor a list of conditions. */
  predicate IsTrap(argv: seq<string>) {
    |argv| == 3 && argv[0] == "trap" && argv[2] == "EXIT" && !("-" <= argv[1]) && !Digits(argv[1])
  }

  predicate IsExit(argv: seq<string>) {
    argv == ["exit"] || IsExitWith(argv)
  }

  predicate IsExitWith(argv: seq<string>) {
    |argv| == 2 && argv[0] == "exit" && ExitNumber(argv[1])
  }

  predicate IsExec(argv: seq<string>) {
    |argv| > 1 && argv[0] == "exec" && !("-" <= argv[1])
  }

  predicate IsColon(argv: seq<string>) {
    argv != [] && argv[0] == ":"
  }

  /** The calls of special built-in utilities whose effect is modelled. */
  predicate Known(argv: seq<string>) {
    IsSetE(argv) || IsTrap(argv) || IsExit(argv) || IsExec(argv) || IsColon(argv)
  }

  ghost function ExitCode(argv: seq<string>): int
    requires IsExitWith(argv)
  {
    assert forall c :: c in argv[1] ==> IsDigit(c);
    ReadDecimal(argv[1]) % 256
  }

  /** `exit` without a number keeps the last status, in a trap action that from before the action; `exec` puts the
      command in the place of the shell. */
  ghost function Builtin<W>(c: Commands<W>, sh: Sh<W>, argv: seq<string>, input: string): Option<Sh<W>>
    requires argv != []
  {
    if IsSetE(argv) then Some(sh.(errexit := true, status := 0))
    else if IsTrap(argv) then Some(sh.(trap := Some(argv[1]), status := 0))
    else if IsColon(argv) then Some(sh.(status := 0))
    else if IsExitWith(argv) then Some(sh.(status := ExitCode(argv), exited := true))
    else if IsExit(argv) then Some(sh.(status := if sh.saved.Some? then sh.saved.value else sh.status, exited := true))
    else if IsExec(argv) && sh.trap.None? then
      var r := c.run(sh.world, argv[1..], input);
      Some(sh.(world := r.world, status := r.status, exited := true))
    else None
  }

  ghost function RunArgv<W>(c: Commands<W>, sh: Sh<W>, argv: seq<string>, input: string,
                            into: Option<string>): Option<Sh<W>>
    requires argv != []
  {
    var bare := Stripped(argv);
    if CarriedOut(bare[0]) then (if into.None? then Builtin(c, sh, bare, input) else None)
    else if bare[0] == "true" then Some(sh.(status := 0))
    else
      var r := c.run(sh.world, bare, input);
      Some(sh.(world := if into.Some? then c.store(r.world, into.value, r.output) else r.world, status := r.status))
  }

  /** `NAME=$(command)`: the name and the command, when the word has this form. */
  ghost predicate IsSubstitution(w: Shell.Word, name: string, command: string) {
    w == Substitution(name, command) && name != "" && (forall c :: c in name ==> NameChar(c)) && Plain(command)
  }

  ghost function RunAssignment<W>(c: Commands<W>, sh: Sh<W>, name: string, command: string): Sh<W> {
    var r := c.substitute(sh.world, command);
    sh.(world := r.world, vars := sh.vars[name := r.output], status := r.status)
  }

  ghost function RunSimple<W>(c: Commands<W>, sh: Sh<W>, tokens: seq<Token>, docs: seq<HereDoc>): Option<Sh<W>> {
    var s := ParseSimple(tokens, NOTHING);
    if s.None? || s.value.words == [] then None
    else if |s.value.words| == 1 && exists name, command :: IsSubstitution(s.value.words[0], name, command) then
      var name, command :| IsSubstitution(s.value.words[0], name, command);
      Some(RunAssignment(c, sh, name, command))
    else if Letter('=', Bare) in s.value.words[0] then None   // other assignments do not occur
    else
      var argv := ExpandAll(s.value.words, sh.vars);
      var into := if s.value.into.Some? then Expand(s.value.into.value, sh.vars) else None;
      if argv.None? || argv.value == [] || (s.value.into.Some? && into.None?) then None
      else if !s.value.here then RunArgv(c, sh, argv.value, "", into)
      else if |docs| == 1 && !docs[0].expands then RunArgv(c, sh, argv.value, docs[0].body, into)
      else None
  }

  // ---------------------------------------------------------------- lists and programs

  function FirstOr(tokens: seq<Token>): (n: nat)
    ensures n <= |tokens|
  {
    if tokens == [] || tokens[0] == Operator("||") then 0 else 1 + FirstOr(tokens[1..])
  }

  /** `a || b`: `b` runs only when `a` fails. */
  ghost function RunOr<W>(c: Commands<W>, sh: Sh<W>, tokens: seq<Token>, docs: seq<HereDoc>): Option<Sh<W>>
    decreases |tokens|
  {
    var n := FirstOr(tokens);
    var r := RunSimple(c, sh, tokens[..n], docs);
    if r.None? || n == |tokens| || r.value.exited || r.value.status == 0 then r
    else RunOr(c, r.value, tokens[n + 1..], docs)
  }

  /** `set -e` ends the program when the last command that ran in a list failed. */
  ghost function RunLines<W>(c: Commands<W>, sh: Sh<W>, lines: seq<Line>): Option<Sh<W>>
    decreases |lines|
  {
    if lines == [] || sh.exited then Some(sh)
    else
      var r := RunOr(c, sh, lines[0].tokens, lines[0].docs);
      if r.None? then None
      else RunLines(c, if r.value.status != 0 && r.value.errexit then r.value.(exited := true) else r.value, lines[1..])
  }

  datatype Exited<W> = Exited(world: W, status: int)

  /** A trap action is run by the shell as it is at that point, `set -e` and all. */
  ghost function RunAction<W>(c: Commands<W>, sh: Sh<W>, action: string): Option<Sh<W>>
    requires !sh.exited
  {
    var r := Read(FRESH, action);
    if Complete(r) then
      RunLines(c, sh.(trap := None, saved := Some(sh.status)), AtEnd(r).lines)
    else None
  }

  /** The end of the process: the EXIT trap runs last. Its status is of no account, unless the action itself ends the
      shell, by `exit` or because a command in it fails under `set -e`. */
  ghost function Ended<W>(c: Commands<W>, r: Option<Sh<W>>): Option<Exited<W>> {
    if r.None? then None
    else if r.value.trap.None? then Some(Exited(r.value.world, r.value.status))
    else
      var last := RunAction(c, r.value.(exited := false), r.value.trap.value);
      if last.None? || last.value.trap.Some? then None
      else Some(Exited(last.value.world, if last.value.exited then last.value.status else r.value.status))
  }

  function Started<W>(world: W): Sh<W> {
    Sh(world, map[], false, None, 0, false, None)
  }

  ghost function RunProgram<W>(c: Commands<W>, world: W, lines: seq<Line>): Option<Exited<W>> {
    Ended(c, RunLines(c, Started(world), lines))
  }

  /** Running a text: it must be complete, and then its lines are run. */
  ghost function RunText<W>(c: Commands<W>, world: W, text: string): Option<Exited<W>> {
    var r := Read(FRESH, text);
    if Complete(r) then RunProgram(c, world, AtEnd(r).lines) else None
  }

  // ---------------------------------------------------------------- expansion of the generated words

  lemma {:induction false} ExpandPlain(s: string, vars: map<string, string>)
    requires Plain(s)
    ensures Expand(Bares(s), vars) == Some(s)
  {
    if s != "" {
      assert s[0] in s;
      assert Bares(s)[1..] == Bares(s[1..]);
      ExpandPlain(s[1..], vars);
      assert [s[0]] + s[1..] == s;
    }
  }

  lemma {:induction false} ExpandQuotedWord(s: string, vars: map<string, string>)
    ensures Expand(QuotedWord(s), vars) == Some(s)
  {
    if s != "" {
      assert QuotedWord(s)[1..] == QuotedWord(s[1..]);
      ExpandQuotedWord(s[1..], vars);
      assert [s[0]] + s[1..] == s;
    }
  }

  lemma {:induction false} WholeName(s: string, q: Shell.Quoting)
    requires forall c :: c in s ==> NameChar(c)
    ensures NameLength(Marked(s, q), q) == |s|
  {
    if s != "" {
      assert s[0] in s;
      assert Marked(s, q)[1..] == Marked(s[1..], q);
      WholeName(s[1..], q);
    }
  }

  lemma ExpandVariable(name: string, vars: map<string, string>, q: Shell.Quoting)
    requires q != Literal && name != "" && (forall c :: c in name ==> NameChar(c)) && name in vars
    requires q == Bare ==> Unsplittable(vars[name])
    ensures Expand([Letter('$', q)] + Marked(name, q), vars) == Some(vars[name])
  {
    var w := [Letter('$', q)] + Marked(name, q);
    WholeName(name, q);
    assert w[1..] == Marked(name, q);
    assert w[1..1 + |name|] == Marked(name, q) && Unquote(Marked(name, q)) == name;
    assert w[1 + |name|..] == [];
    assert Expand([], vars) == Some("");
    assert vars[name] + "" == vars[name];
  }

  /** Text in double quotes that ends in a variable. */
  lemma {:induction false} ExpandInDoubleQuotes(text: string, name: string, vars: map<string, string>)
    requires '$' !in text && '`' !in text && name != "" && (forall c :: c in name ==> NameChar(c)) && name in vars
    ensures Expand(Marked(text, Double) + ([Letter('$', Double)] + Marked(name, Double)), vars) ==
        Some(text + vars[name])
    decreases |text|
  {
    var tail := [Letter('$', Double)] + Marked(name, Double);
    if text == "" {
      ExpandVariable(name, vars, Double);
      assert Marked(text, Double) + tail == tail;
      assert text + vars[name] == vars[name];
    } else {
      ExpandInDoubleQuotes(text[1..], name, vars);
      assert (Marked(text, Double) + tail)[1..] == Marked(text[1..], Double) + tail;
      assert [text[0]] + (text[1..] + vars[name]) == text + vars[name];
    }
  }

  // ---------------------------------------------------------------- running the generated lines

  /** Tokens that are words and expand to `argv`, none of them an assignment. */
  ghost predicate Yields(tokens: seq<Token>, vars: map<string, string>, argv: seq<string>) {
    && |tokens| == |argv| > 0
    && (forall i :: 0 <= i < |tokens| ==> tokens[i].Word? && Expand(tokens[i].word, vars) == Some(argv[i]))
    && Letter('=', Bare) !in tokens[0].word
  }

  function WordsOf(tokens: seq<Token>): seq<Shell.Word>
    requires forall i :: 0 <= i < |tokens| ==> tokens[i].Word?
  {
    seq(|tokens|, i requires 0 <= i < |tokens| => tokens[i].word)
  }

  lemma {:induction false} ParseWords(tokens: seq<Token>, s: Simple)
    requires forall i :: 0 <= i < |tokens| ==> tokens[i].Word?
    ensures ParseSimple(tokens, s) == Some(s.(words := s.words + WordsOf(tokens)))
    decreases |tokens|
  {
    if tokens == [] {
      assert s.words + WordsOf(tokens) == s.words;
    } else {
      ParseWords(tokens[1..], s.(words := s.words + [tokens[0].word]));
      assert s.words + [tokens[0].word] + WordsOf(tokens[1..]) == s.words + WordsOf(tokens);
    }
  }

  lemma {:induction false} ExpandWords(words: seq<Shell.Word>, vars: map<string, string>, argv: seq<string>)
    requires |words| == |argv| && forall i :: 0 <= i < |words| ==> Expand(words[i], vars) == Some(argv[i])
    ensures ExpandAll(words, vars) == Some(argv)
    decreases |words|
  {
    if words != [] {
      ExpandWords(words[1..], vars, argv[1..]);
      assert [argv[0]] + argv[1..] == argv;
    }
  }

  lemma SubstitutionHasEquals(w: Shell.Word, name: string, command: string)
    requires IsSubstitution(w, name, command)
    ensures Letter('=', Bare) in w
  {
    assert w[|name|] == Letter('=', Bare);
  }

  lemma RunYields<W>(c: Commands<W>, sh: Sh<W>, tokens: seq<Token>, argv: seq<string>)
    requires Yields(tokens, sh.vars, argv)
    ensures RunSimple(c, sh, tokens, []) == RunArgv(c, sh, argv, "", None)
  {
    ParseWords(tokens, NOTHING);
    var words := WordsOf(tokens);
    assert NOTHING.words + words == words;
    ExpandWords(words, sh.vars, argv);
    if name, command :| IsSubstitution(words[0], name, command) {
      SubstitutionHasEquals(words[0], name, command);
      assert false;
    }
  }

  lemma {:induction false} OrComesAfterWords(tokens: seq<Token>, rest: seq<Token>)
    requires forall i :: 0 <= i < |tokens| ==> tokens[i] != Operator("||")
    requires rest == [] || rest[0] == Operator("||")
    ensures FirstOr(tokens + rest) == |tokens|
    decreases |tokens|
  {
    if tokens == [] {
      assert tokens + rest == rest;
    } else {
      assert (tokens + rest)[1..] == tokens[1..] + rest;
      OrComesAfterWords(tokens[1..], rest);
    }
  }

  lemma RunTrue<W>(c: Commands<W>, sh: Sh<W>)
    ensures RunOr(c, sh, [PlainToken("true")], []) == Some(sh.(status := 0))
  {
    PlainWords();
    ExpandPlain("true", sh.vars);
    var tokens := [PlainToken("true")];
    OrComesAfterWords(tokens, []);
    assert tokens + [] == tokens && tokens[..1] == tokens;
    assert Yields(tokens, sh.vars, ["true"]);
    RunYields(c, sh, tokens, ["true"]);
  }

  /** What `|| true` makes of a result. */
  function Ignore<W>(r: Option<Sh<W>>, continueOnError: bool): Option<Sh<W>> {
    if r.Some? && continueOnError && !r.value.exited then Some(r.value.(status := 0)) else r
  }

  lemma RunIgnoring<W>(c: Commands<W>, sh: Sh<W>, tokens: seq<Token>, argv: seq<string>, continueOnError: bool)
    requires Yields(tokens, sh.vars, argv)
    ensures RunOr(c, sh, tokens + OrTrueTokens(continueOnError), []) ==
        Ignore(RunArgv(c, sh, argv, "", None), continueOnError)
  {
    var rest := OrTrueTokens(continueOnError);
    OrComesAfterWords(tokens, rest);
    assert (tokens + rest)[..|tokens|] == tokens;
    RunYields(c, sh, tokens, argv);
    if continueOnError {
      assert (tokens + rest)[|tokens| + 1..] == [PlainToken("true")];
      var r := RunArgv(c, sh, argv, "", None);
      if r.Some? {
        RunTrue(c, r.value);
      }
    } else {
      assert tokens + rest == tokens;
    }
  }

  function TimeoutArgs(timeout: Option<int>): seq<string> {
    if timeout.Some? then ["timeout", Duration.FormatDuration(timeout.value)] else []
  }

  lemma TimeoutYields(timeout: Option<int>, vars: map<string, string>)
    ensures |TimeoutTokens(timeout)| == |TimeoutArgs(timeout)|
    ensures forall i :: 0 <= i < |TimeoutTokens(timeout)| ==>
          TimeoutTokens(timeout)[i].Word? && Expand(TimeoutTokens(timeout)[i].word, vars) ==
          Some(TimeoutArgs(timeout)[i])
    ensures timeout.Some? ==> Letter('=', Bare) !in TimeoutTokens(timeout)[0].word
  {
    if timeout.Some? {
      PlainWords();
      DurationIsPlain(timeout.value);
      ExpandPlain("timeout", vars);
      ExpandPlain(Duration.FormatDuration(timeout.value), vars);
      assert '=' !in "timeout";
    }
  }

  lemma RunSetE<W>(c: Commands<W>, sh: Sh<W>)
    ensures RunOr(c, sh, SET_E_LINE.tokens, []) == Some(sh.(errexit := true, status := 0))
  {
    PlainWords();
    ExpandPlain("set", sh.vars);
    ExpandPlain("-e", sh.vars);
    var tokens, argv := SET_E_LINE.tokens, ["set", "-e"];
    assert '=' !in "set";
    assert Yields(tokens, sh.vars, argv);
    RunIgnoring(c, sh, tokens, argv, false);
    assert tokens + OrTrueTokens(false) == tokens;
  }

  lemma CommandYields(parts: seq<string>, timeout: Option<int>, vars: map<string, string>)
    requires parts != []
    ensures Yields(TimeoutTokens(timeout) + QuotedTokens(parts), vars, TimeoutArgs(timeout) + parts)
  {
    TimeoutYields(timeout, vars);
    forall i | 0 <= i < |parts|
      ensures Expand(QuotedTokens(parts)[i].word, vars) == Some(parts[i])
    {
      ExpandQuotedWord(parts[i], vars);
    }
    assert Letter('=', Bare) !in QuotedTokens(parts)[0].word;
  }

  // ---------------------------------------------------------------- the exit status of a command step

  /** The last line of a program. */
  lemma RunLastLine<W>(c: Commands<W>, sh: Sh<W>, line: Line)
    requires !sh.exited
    ensures var r := RunOr(c, sh, line.tokens, line.docs);
            RunLines(c, sh, [line]) == if r.Some? && r.value.status != 0 && r.value.errexit then
              Some(r.value.(exited := true)) else r
  {
    assert [line][1..] == [];
  }

  lemma FirstLine<W>(c: Commands<W>, sh: Sh<W>, next: Sh<W>, line: Line, lines: seq<Line>)
    requires !sh.exited && RunOr(c, sh, line.tokens, line.docs) == Some(next) && next.status == 0
    ensures RunLines(c, sh, [line] + lines) == RunLines(c, next, lines)
  {
    assert ([line] + lines)[1..] == lines;
  }

  /** The first line of a wrapper, when errors are not ignored. */
  lemma RunHead<W>(c: Commands<W>, world: W, errexit: bool, lines: seq<Line>)
    ensures RunLines(c, Started(world), (if errexit then [SET_E_LINE] else []) + lines) ==
        RunLines(c, Started(world).(errexit := errexit), lines)
  {
    if errexit {
      RunSetE(c, Started(world));
      hide RunOr, RunLines;
      FirstLine(c, Started(world), Started(world).(errexit := true), SET_E_LINE, lines);
    } else {
      assert [] + lines == lines;
    }
  }

  /** What becomes of a wrapped command. */
  lemma CommandRuns<W>(c: Commands<W>, world: W, command: seq<string>, args: seq<string>, continueOnError: bool,
                       timeout: Option<int>)
    requires command != []
    ensures RunText(c, world, CommandText(command, args, continueOnError, timeout)) ==
            Ended(c, Ignore(RunArgv(c, Started(world).(errexit := !continueOnError), TimeoutArgs(timeout)
              + (command + args), "", None), continueOnError))
  {
    hide Read, CommandText, RunOr, RunLines, RunArgv, Yields, RunAction, QuotedTokens, TimeoutTokens, TimeoutArgs;
    CommandWrapperReadsBack(command, args, continueOnError, timeout);
    var line := CommandLine(command + args, continueOnError, timeout);
    var sh := Started(world).(errexit := !continueOnError);
    var argv := TimeoutArgs(timeout) + (command + args);
    CommandYields(command + args, timeout, sh.vars);
    RunIgnoring(c, sh, TimeoutTokens(timeout) + QuotedTokens(command + args), argv, continueOnError);
    RunLastLine(c, sh, line);
    RunHead(c, world, !continueOnError, [line]);
  }

  /** What tells some names from those that the shell carries out. */
  lemma CarriedOutShape(name: string)
    requires CarriedOut(name)
    ensures name != "" && '/' !in name
    ensures (name[0] == 'c' ==> |name| >= 7) && (name[0] == 't' ==> |name| <= 5) && (name[0] == 'r' ==> |name| >= 6)
  {
  }

  /** A command found in the file system. */
  ghost predicate External(name: string) {
    !CarriedOut(name) && name != "true"
  }

  lemma TimeoutIsExternal()
    ensures External("timeout")
  {
    assert |"timeout"| == 7 && "timeout"[0] == 't' && |"true"| == 4;
    if CarriedOut("timeout") {
      CarriedOutShape("timeout");
    }
  }

  /** A command that the shell does not carry out itself, once `command` is taken away. */
  predicate Outside(argv: seq<string>) {
    argv != [] && !CarriedOut(Stripped(argv)[0])
  }

  /** A command as a process, or as the shell runs it: `true` is a utility that every shell has built in. */
  ghost function Body<W>(c: Commands<W>, world: W, argv: seq<string>, inShell: bool): Ran<W>
    requires argv != []
  {
    if !inShell then c.run(world, argv, "")
    else if Stripped(argv)[0] == "true" then Ran(world, 0, "")
    else c.run(world, Stripped(argv), "")
  }

  lemma TimeoutTakesOver(timeout: Option<int>, argv: seq<string>)
    requires argv != []
    ensures timeout.Some? ==> Outside(TimeoutArgs(timeout) + argv)
    ensures timeout.None? ==> TimeoutArgs(timeout) + argv == argv
  {
    TimeoutIsExternal();
    hide CarriedOut;
    assert "timeout"[0] == 't' && "command"[0] == 'c';
    if timeout.Some? {
      assert (TimeoutArgs(timeout) + argv)[0] == "timeout";
    }
  }

  /** The exit status of a wrapped command: that of the command under the timeout, or zero when errors are ignored.
      Without a timeout the command must not be one that the shell carries out itself, `command` taken away. */
  lemma CommandWrapperStatus<W>(c: Commands<W>, world: W, command: seq<string>, args: seq<string>,
                                continueOnError: bool, timeout: Option<int>)
    requires command != [] && (timeout.Some? || Outside(command + args))
    ensures var body := Body(c, world, TimeoutArgs(timeout) + (command + args), true);
            RunText(c, world, CommandText(command, args, continueOnError, timeout)) ==
            Some(Exited(body.world, if continueOnError then 0 else body.status))
  {
    hide RunText, CommandText, CarriedOut, TimeoutArgs, Stripped;
    TimeoutTakesOver(timeout, command + args);
    CommandRuns(c, world, command, args, continueOnError, timeout);
  }

  /** The shell after `trap action EXIT` at the start of a program. */
  function Trapping<W>(world: W, action: string): Sh<W> {
    Started(world).(trap := Some(action))
  }

  /** What the shell carries out itself has a result in the model: it is one of the calls modelled, and a trap action
      can be run. */
  ghost predicate Understood<W>(c: Commands<W>, world: W, argv: seq<string>) {
    && Known(argv)
    && (IsTrap(argv) ==>
          var last := RunAction(c, Trapping(world, argv[1]), argv[1]);
          last.Some? && last.value.trap.None?)
  }

  /** The command gets out of the wrapper with a status that is not zero: by `exit` with a number, by `exec` of a
      command that fails, or by a trap action that exits. */
  ghost predicate Escapes<W>(c: Commands<W>, world: W, argv: seq<string>) {
    || (IsExitWith(argv) && ExitCode(argv) != 0)
    || (IsExec(argv) && c.run(world, argv[1..], "").status != 0)
    || (IsTrap(argv) &&
          var last := RunAction(c, Trapping(world, argv[1]), argv[1]);
          last.Some? && last.value.exited && last.value.status != 0)
  }

  lemma KnownIsCarriedOut(argv: seq<string>)
    requires Known(argv)
    ensures CarriedOut(argv[0])
  {
    assert SpecialBuiltin("set") && SpecialBuiltin("trap") && SpecialBuiltin("exit") && SpecialBuiltin("exec")
      && SpecialBuiltin(":");
  }

  lemma ExitIsNotExec(argv: seq<string>)
    ensures IsExit(argv) ==> !IsExec(argv) && !IsSetE(argv) && !IsTrap(argv) && !IsColon(argv)
    ensures IsExec(argv) ==> !IsSetE(argv) && !IsTrap(argv) && !IsColon(argv)
    ensures IsTrap(argv) ==> !IsSetE(argv) && !IsColon(argv)
  {
    assert "exit"[1] == 'x' && "exit"[2] == 'i' && "exec"[1] == 'x' && "exec"[2] == 'e' && "set"[0] == 's'
      && "trap"[0] == 't' && ":"[0] == ':';
  }

  /** What a call that the shell carries out comes to at the start of a program that ignores errors. */
  lemma CarriedOutEnds<W>(c: Commands<W>, world: W, argv: seq<string>)
    requires argv != [] && CarriedOut(Stripped(argv)[0])
    ensures var bare := Stripped(argv);
            var r := Ended(c, Ignore(RunArgv(c, Started(world), argv, "", None), true));
            && (r.Some? <==> Understood(c, world, bare))
            && (r.Some? ==> (r.value.status != 0 <==> Escapes(c, world, bare)))
  {
    hide CarriedOut, Stripped, RunAction, ExitCode;
    var bare := Stripped(argv);
    ExitIsNotExec(bare);
    hide IsExit, IsExec, IsSetE, IsColon;
    assert IsExitWith(bare) ==> IsExit(bare);
    hide IsExitWith;
  }

  /** Ignoring errors, exactly, where no timeout puts a process of its own around the command: the wrapper's status
      is zero unless the command, any leading `command` taken away, is `exit` with a number that is not zero modulo
      256, `exec` of a command that fails, or an EXIT trap whose action exits with another status. This covers every
      command but those calls of built-in utilities that are not modelled. */
  lemma IgnoredStatusExactly<W>(c: Commands<W>, world: W, command: seq<string>, args: seq<string>)
    requires command != []
    ensures var r, bare := RunText(c, world, CommandText(command, args, true, None)), Stripped(command + args);
            && (r.Some? <==> Outside(command + args) || Understood(c, world, bare))
            && (r.Some? ==> (r.value.status != 0 <==> Escapes(c, world, bare)))
  {
    hide RunText, CommandText, CarriedOut, Stripped, RunAction, Escapes;
    CommandRuns(c, world, command, args, true, None);
    var argv := command + args;
    assert TimeoutArgs(None) + argv == argv;
    if Outside(argv) {
      if Known(Stripped(argv)) {
        KnownIsCarriedOut(Stripped(argv));
      }
      OutsideDoesNotEscape(c, world, Stripped(argv));
    } else {
      CarriedOutEnds(c, world, argv);
    }
  }

  lemma OutsideDoesNotEscape<W>(c: Commands<W>, world: W, argv: seq<string>)
    requires argv != [] && !Known(argv)
    ensures !Escapes(c, world, argv)
  {
  }

  // ---------------------------------------------------------------- ways out of a wrapper that ignores errors

  /** `exit n`, with `command` in front or not, ends the wrapper with `n`. */
  lemma ExitRuns<W>(c: Commands<W>, sh: Sh<W>, argv: seq<string>, n: string)
    requires ExitNumber(n) && (argv == ["exit", n] || argv == ["command", "exit", n])
    ensures IsExitWith(["exit", n])
    ensures RunArgv(c, sh, argv, "", None) == Some(sh.(status := ExitCode(["exit", n]), exited := true))
  {
    KnownIsCarriedOut(["exit", n]);
    ExitIsNotExec(["exit", n]);
    assert "exit"[0] == 'e' && "command"[0] == 'c' && "-"[0] == '-';
    hide CarriedOut;
    assert ["command", "exit", n][1..] == ["exit", n];
    assert Stripped(["exit", n]) == ["exit", n];
    assert Stripped(argv) == ["exit", n];
  }

  /** `exit n` ends the wrapper with `n`, errors ignored or not. */
  lemma ExitIsNotIgnored<W>(c: Commands<W>, world: W, n: string, continueOnError: bool)
    requires ExitNumber(n)
    ensures (forall d :: d in n ==> IsDigit(d))
    ensures RunText(c, world, CommandText(["exit"], [n], continueOnError, None)) ==
        Some(Exited(world, ReadDecimal(n) % 256))
  {
    hide RunText, RunArgv, CommandText;
    CommandRuns(c, world, ["exit"], [n], continueOnError, None);
    assert TimeoutArgs(None) + (["exit"] + [n]) == ["exit", n];
    ExitRuns(c, Started(world).(errexit := !continueOnError), ["exit", n], n);
  }

  /** So does `command exit n`. */
  lemma CommandExitIsNotIgnored<W>(c: Commands<W>, world: W, n: string, continueOnError: bool)
    requires ExitNumber(n)
    ensures (forall d :: d in n ==> IsDigit(d))
    ensures RunText(c, world, CommandText(["command"], ["exit", n], continueOnError, None)) ==
        Some(Exited(world, ReadDecimal(n) % 256))
  {
    hide RunText, RunArgv, CommandText;
    CommandRuns(c, world, ["command"], ["exit", n], continueOnError, None);
    assert TimeoutArgs(None) + (["command"] + ["exit", n]) == ["command", "exit", n];
    ExitRuns(c, Started(world).(errexit := !continueOnError), ["command", "exit", n], n);
  }

  /** Reading two plain words. */
  lemma ReadTwoWords(a: string, b: string)
    requires Plain(a) && Plain(b) && a != "" && b != ""
    ensures var r := Read(FRESH, (a + " ") + b);
            Complete(r) && AtEnd(r).lines == [Line([PlainToken(a), PlainToken(b)], [])]
  {
    var r1 := EndWord(FRESH, Bares(a));
    ReadPlainThenBlank(FRESH, a);
    ReadPlainWord(r1, b);
    hide Read, Bares;
    ReadThen(FRESH, a + " ", r1, b, r1.(mode := InWord(Bares(b))));
    assert [] + [PlainToken(a)] + [PlainToken(b)] == [PlainToken(a), PlainToken(b)];
    assert [] + [Line([PlainToken(a), PlainToken(b)], [])] == [Line([PlainToken(a), PlainToken(b)], [])];
  }

  lemma ExitWords(n: string)
    requires ExitNumber(n)
    ensures Plain("exit") && Plain(n) && n != "" && '=' !in "exit"
  {
  }

  /** The action `exit n` ends the shell with `n`. */
  lemma ExitActionRuns<W>(c: Commands<W>, sh: Sh<W>, n: string)
    requires ExitNumber(n) && !sh.exited
    ensures IsExitWith(["exit", n])
    ensures var last := RunAction(c, sh, ("exit" + " ") + n);
            last.Some? && last.value.world == sh.world && last.value.trap.None?
            && last.value.exited && last.value.status == ExitCode(["exit", n])
  {
    ExitWords(n);
    ReadTwoWords("exit", n);
    var line := Line([PlainToken("exit"), PlainToken(n)], []);
    var inside := sh.(trap := None, saved := Some(sh.status));
    ExpandPlain("exit", inside.vars);
    ExpandPlain(n, inside.vars);
    ExitRuns(c, inside, ["exit", n], n);
    assert Letter('=', Bare) !in Bares("exit");
    hide Read, Expand, Bares, RunArgv, RunOr, RunLines;
    assert Yields(line.tokens, inside.vars, ["exit", n]);
    RunIgnoring(c, inside, line.tokens, ["exit", n], false);
    assert line.tokens + OrTrueTokens(false) == line.tokens;
    RunLastLine(c, inside, line);
  }

  lemma TrapsExit(n: string)
    requires ExitNumber(n)
    ensures var argv := ["trap", ("exit" + " ") + n, "EXIT"];
            IsTrap(argv) && CarriedOut("trap") && Stripped(argv) == argv && !IsSetE(argv)
  {
    var action := ("exit" + " ") + n;
    assert action[0] == 'e' && "-"[0] == '-' && "trap"[0] == 't' && "command"[0] == 'c' && |["set", "-e"]| == 2;
    assert SpecialBuiltin("trap");
  }

  /** And so does an EXIT trap that exits. */
  lemma TrapExitIsNotIgnored<W>(c: Commands<W>, world: W, n: string, continueOnError: bool)
    requires ExitNumber(n)
    ensures (forall d :: d in n ==> IsDigit(d))
    ensures RunText(c, world, CommandText(["trap"], [("exit" + " ") + n, "EXIT"], continueOnError, None)) ==
        Some(Exited(world, ReadDecimal(n) % 256))
  {
    hide RunText, CommandText, RunAction, CarriedOut, Stripped, IsTrap, IsSetE, IsExitWith;
    var action := ("exit" + " ") + n;
    var argv := ["trap", action, "EXIT"];
    CommandRuns(c, world, ["trap"], [action, "EXIT"], continueOnError, None);
    assert TimeoutArgs(None) + (["trap"] + [action, "EXIT"]) == argv;
    TrapsExit(n);
    var sh := Started(world).(errexit := !continueOnError);
    ExitActionRuns(c, sh.(trap := Some(action)), n);
    assert RunArgv(c, sh, argv, "", None) == Some(sh.(trap := Some(action), status := 0));
  }
}
