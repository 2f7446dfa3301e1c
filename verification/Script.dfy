/** The files package: what scripts and command wrappers are as text. */
module Script {
  import opened Basics
  import opened Text
  import Duration

  const SHEBANG := "#!/bin/sh\n"
  const SET_E := "set -e\n"
  const OR_TRUE := " || true"
  const DELIMITER := "TEKTON_SCRIPT_EOF"

  /** A single quote is closed, given in double quotes, and reopened. */
  function EscapedChar(c: char): string {
    if c == '\'' then "'\"'\"'" else [c]
  }

  function Escape(s: string): string {
    if s == "" then "" else EscapedChar(s[0]) + Escape(s[1..])
  }

  function Quote(s: string): string {
    "'" + Escape(s) + "'"
  }

  function Quotes(parts: seq<string>): seq<string> {
    seq(|parts|, i requires 0 <= i < |parts| => Quote(parts[i]))
  }

  function ShellQuoteJoin(parts: seq<string>): string {
    Join(Quotes(parts), " ")
  }

  function TimeoutPrefix(timeout: Option<int>): string {
    if timeout.Some? then "timeout " + Duration.FormatDuration(timeout.value) + " " else ""
  }

  function CommandText(command: seq<string>, args: seq<string>, continueOnError: bool, timeout: Option<int>): string {
    var line := TimeoutPrefix(timeout) + ShellQuoteJoin(command + args);
    if continueOnError then SHEBANG + line + OR_TRUE + "\n" else SHEBANG + SET_E + line + "\n"
  }

  const FILE := "SCRIPT_FILE"
  const RM := "rm -f "
  const CLEAN_UP := RM + ("$" + FILE)

  // The fixed lines of the script wrapper, spelled in the pieces in which a shell reads them.

  function MakeFile(): string {
    FILE + "=" + "$" + "(" + "mktemp" + ")" + "\n"
  }

  function TrapExit(): string {
    ("trap" + " ") + ("\"" + CLEAN_UP + "\"" + " ") + "EXIT" + "\n"
  }

  function ReadScript(): string {
    ("cat" + " ") + (">" + " ") + ("$" + FILE) + " " + ("<" + "<" + " " + "'" + DELIMITER + "'" + "\n")
  }

  function MakeExecutable(): string {
    ("chmod" + " ") + ("+x" + " ") + ("$" + FILE) + "\n"
  }

  function WrapHead(): string {
    SHEBANG + SET_E + MakeFile() + TrapExit() + ReadScript()
  }

  function WrapTail(timeout: Option<int>, continueOnError: bool): string {
    MakeExecutable() + TimeoutPrefix(timeout) + ("$" + FILE) + ((if continueOnError then OR_TRUE else "") + "\n")
  }

  function WrapScript(script: string, timeout: Option<int>, continueOnError: bool): string {
    WrapHead() + script + "\n" + DELIMITER + "\n" + WrapTail(timeout, continueOnError)
  }

  predicate HasShebang(script: string) {
    "#!" <= Trim(script, IsSpace)
  }

  function WithPreamble(script: string): string {
    if HasShebang(script) then script else SHEBANG + SET_E + script
  }

  // ---------------------------------------------------------------- which scripts get a preamble

  /** The first characters that are not white space are `#!`. */
  ghost predicate Shebanged(script: string) {
    exists k :: 0 <= k <= |script| && (forall i :: 0 <= i < k ==> IsSpace(script[i])) && "#!" <= script[k..]
  }

  lemma {:induction false} TrimLeftFrom(s: string, drop: char -> bool) returns (k: nat)
    ensures k <= |s| && TrimLeft(s, drop) == s[k..] && (forall i :: 0 <= i < k ==> drop(s[i]))
    ensures k < |s| ==> !drop(s[k])
  {
    k := 0;
    if s != "" && drop(s[0]) {
      k := TrimLeftFrom(s[1..], drop);
      assert forall i :: 0 < i <= k ==> s[i] == s[1..][i - 1];
      k := k + 1;
    }
  }

  lemma {:induction false} TrimRightKeeps(s: string, drop: char -> bool, n: nat)
    requires n <= |s| && (n > 0 ==> !drop(s[n - 1]))
    ensures n <= |TrimRight(s, drop)| && TrimRight(s, drop) <= s
  {
    if s != "" && drop(s[|s| - 1]) {
      TrimRightKeeps(s[..|s| - 1], drop, n);
    }
  }

  lemma ShebangExactly(script: string)
    ensures HasShebang(script) <==> Shebanged(script)
  {
    var k := TrimLeftFrom(script, IsSpace);
    var rest := script[k..];
    TrimRightKeeps(rest, IsSpace, 0);
    if Shebanged(script) {
      var l :| 0 <= l <= |script| && (forall i :: 0 <= i < l ==> IsSpace(script[i])) && "#!" <= script[l..];
      assert script[l] == '#' && script[l + 1] == '!';
      assert l == k;
      TrimRightKeeps(rest, IsSpace, 2);
    }
  }

  lemma PreambleExactly(script: string)
    ensures WithPreamble(script) == if Shebanged(script) then script else "#!/bin/sh\nset -e\n" + script
  {
    ShebangExactly(script);
    assert SHEBANG + SET_E == "#!/bin/sh\nset -e\n";
  }

  function ScriptText(script: string, continueOnError: bool, timeout: Option<int>): string {
    if continueOnError || timeout.Some? then WrapScript(WithPreamble(script), timeout, continueOnError)
    else WithPreamble(script)
  }
}
