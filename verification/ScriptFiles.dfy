/** script.go as written: the files that are generated for steps, and how a shell reads them. */
module ScriptFiles {
  import opened Basics
  import opened Text
  import opened Shell
  import opened Script
  import opened Quoting
  import opened HereDocs
  import opened ScriptRun
  import Duration

  /** The whole text is read, as these comments and lines. */
  ghost predicate ReadsAs(text: string, comments: seq<string>, lines: seq<Line>) {
    var r := Read(FRESH, text);
    Complete(r) && AtEnd(r).comments == comments && AtEnd(r).lines == lines
  }

  /** One character of `Escape`, taken over. */
  lemma EscapeStep(done: string, p: string, i: nat)
    requires i < |p| && done + Escape(p[i..]) == Escape(p)
    ensures done + EscapedChar(p[i]) + Escape(p[i + 1..]) == Escape(p)
  {
    hide EscapedChar;
    assert p[i..][0] == p[i] && p[i..][1..] == p[i + 1..];
  }

  /** `strings.ReplaceAll(p, "'", ...)`, one character at a time. */
  method ReplaceQuotes(p: string) returns (escaped: string)
    ensures escaped == Escape(p)
  {
    hide EscapedChar;
    escaped := "";
    for i := 0 to |p|
      invariant escaped + Escape(p[i..]) == Escape(p)
    {
      EscapeStep(escaped, p, i);
      escaped := escaped + EscapedChar(p[i]);
    }
    assert p[|p|..] == "";
  }

  method JoinQuoted(parts: seq<string>) returns (line: string)
    ensures line == ShellQuoteJoin(parts)
    ensures parts != [] ==> ReadsAs(line, [], [Line(QuotedTokens(parts), [])])
  {
    var quoted := new string[|parts|](_ => "");
    for i := 0 to |parts|
      invariant forall k :: 0 <= k < i ==> quoted[k] == Quote(parts[k])
    {
      var escaped := ReplaceQuotes(parts[i]);
      quoted[i] := "'" + escaped + "'";
    }
    assert quoted[..] == Quotes(parts);
    line := Join(quoted[..], " ");
    QuotingRoundTrip(parts);
  }

  method CommandWrapper(command: seq<string>, args: seq<string>, continueOnError: bool, timeout: Option<int>)
    returns (script: string)
    ensures script == CommandText(command, args, continueOnError, timeout)
    ensures command != [] ==>
              ReadsAs(script, ["#!/bin/sh"],
                      (if continueOnError then [] else [SET_E_LINE])
                        + [CommandLine(command + args, continueOnError, timeout)])
  {
    var cmdParts := [];
    cmdParts := cmdParts + command;
    cmdParts := cmdParts + args;
    var cmdLine := JoinQuoted(cmdParts);
    if timeout.Some? {
      cmdLine := "timeout " + Duration.FormatDuration(timeout.value) + " " + cmdLine;
    }
    assert cmdParts == command + args;
    assert cmdLine == TimeoutPrefix(timeout) + ShellQuoteJoin(cmdParts);
    if continueOnError {
      script := SHEBANG + cmdLine + OR_TRUE + "\n";
    } else {
      script := SHEBANG + SET_E + cmdLine + "\n";
    }
    if command != [] {
      CommandWrapperReadsBack(command, args, continueOnError, timeout);
    }
  }

  method Wrap(script: string, timeout: Option<int>, continueOnError: bool) returns (wrapper: string)
    ensures wrapper == WrapScript(script, timeout, continueOnError)
    ensures ReadsAs(wrapper, ["#!/bin/sh"], WrapperLines(script, timeout, continueOnError)) <==>
        !HasDelimiterLine(script)
  {
    var timeoutPrefix := "";
    if timeout.Some? {
      timeoutPrefix := "timeout " + Duration.FormatDuration(timeout.value) + " ";
    }
    var errorSuffix := "";
    if continueOnError {
      errorSuffix := OR_TRUE;
    }
    wrapper := SHEBANG + SET_E + MakeFile() + TrapExit() + ReadScript() + script + "\n" + DELIMITER + "\n"
               + (MakeExecutable() + timeoutPrefix + ("$" + FILE) + (errorSuffix + "\n"));
    HereDocRoundTrip(script, timeout, continueOnError);
  }

  method StepScript(script: string, continueOnError: bool, timeout: Option<int>) returns (data: string)
    ensures data == ScriptText(script, continueOnError, timeout)
    ensures var whole := if Shebanged(script) then script else "#!/bin/sh\nset -e\n" + script;
            if continueOnError || timeout.Some? then
              (ReadsAs(data, ["#!/bin/sh"], WrapperLines(whole, timeout, continueOnError)) <==>
                !HasDelimiterLine(script))
            else data == whole
  {
    hide Shebanged;
    PreambleExactly(script);
    PreambleHasNoDelimiter(script);
    data := script;
    var cleaned := Trim(script, IsSpace);
    if !("#!" <= cleaned) {
      data := SHEBANG + SET_E + data;
    }
    if continueOnError || timeout.Some? {
      data := Wrap(data, timeout, continueOnError);
    }
  }
}
