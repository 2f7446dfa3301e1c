/** load.go: a file of YAML documents is stripped of comments, trimmed of dashes and split at `---`. */
module Documents {
  import opened Text

  const SEPARATOR := "---"

  predicate IsDash(c: char) {
    c == '-'
  }

  // ---------------------------------------------------------------- the comment expression

  /** `\s` in Go's regular expressions. */
  predicate IsBlank(c: char) {
    c == '\t' || c == '\n' || c == '\U{c}' || c == '\r' || c == ' '
  }

  lemma BlanksExactly(c: char)
    ensures IsBlank(c) <==> c as int in {9, 10, 12, 13, 32}
  {
    assert '\U{c}' as int == 12;
  }

  function Blanks(s: string): (n: nat)
    ensures n <= |s|
  {
    if s != "" && IsBlank(s[0]) then 1 + Blanks(s[1..]) else 0
  }

  /** The characters up to the end of the line. */
  function LineLength(s: string): (n: nat)
    ensures n <= |s|
  {
    if s == "" || s[0] == '\n' then 0 else 1 + LineLength(s[1..])
  }

  /** `\s*#([^#].*?)$` matches at the start of `s`. Only the whole run of blanks can be followed by `#`. */
  predicate Comment(s: string) {
    var n := Blanks(s);
    n + 1 < |s| && s[n] == '#' && s[n + 1] != '#'
  }

  /** The match: the character after `#` may itself be a newline, and then the line after that goes too. */
  function CommentLength(s: string): (n: nat)
    requires Comment(s)
    ensures 0 < n <= |s|
  {
    var n := Blanks(s);
    n + 2 + LineLength(s[n + 2..])
  }

  /** `ReplaceAllString(s, "")` with `^` and `$` at line boundaries. */
  function Strip(s: string, lineStart: bool): string
    decreases |s|
  {
    if s == "" then ""
    else if lineStart && Comment(s) then
      var n := CommentLength(s);
      Strip(s[n..], s[n - 1] == '\n')
    else [s[0]] + Strip(s[1..], s[0] == '\n')
  }

  // ---------------------------------------------------------------- the expression, declaratively

  /** The first `j` characters are what the expression matches at a line start: blanks, `#`, one character that is not
      `#`, and no newline until the nearest end of a line. */
  ghost predicate Matches(s: string, j: nat) {
    exists n: nat :: MatchesFrom(s, n, j)
  }

  ghost predicate MatchesFrom(s: string, n: nat, j: nat) {
    && n + 2 <= j <= |s| && (forall k :: 0 <= k < n ==> IsBlank(s[k]))
    && s[n] == '#' && s[n + 1] != '#'
    && (forall k :: n + 2 <= k < j ==> s[k] != '\n') && (j == |s| || s[j] == '\n')
  }

  lemma {:induction false} BlanksInFront(s: string)
    ensures forall k :: 0 <= k < Blanks(s) ==> IsBlank(s[k])
    ensures Blanks(s) < |s| ==> !IsBlank(s[Blanks(s)])
  {
    if s != "" && IsBlank(s[0]) {
      BlanksInFront(s[1..]);
    }
  }

  lemma {:induction false} UpToTheLineEnd(s: string)
    ensures forall k :: 0 <= k < LineLength(s) ==> s[k] != '\n'
    ensures LineLength(s) < |s| ==> s[LineLength(s)] == '\n'
  {
    if s != "" && s[0] != '\n' {
      UpToTheLineEnd(s[1..]);
    }
  }

  /** A comment is what matches, and there is one length at most. */
  lemma CommentExactly(s: string, j: nat)
    ensures Comment(s) && CommentLength(s) == j <==> Matches(s, j)
  {
    var n := Blanks(s);
    BlanksInFront(s);
    if Comment(s) {
      var line := s[n + 2..];
      UpToTheLineEnd(line);
      assert forall k :: 0 <= k < |line| ==> line[k] == s[n + 2 + k];
      assert MatchesFrom(s, n, CommentLength(s));
    }
    if Matches(s, j) {
      var m: nat :| MatchesFrom(s, m, j);
      assert !IsBlank('#');
      assert m == n;
    }
  }

  /** All that is removed are matches at line starts, one after the other from the left; everything else stays. */
  lemma StripExactly(s: string, lineStart: bool, j: nat)
    ensures lineStart && Matches(s, j) ==> Strip(s, lineStart) == Strip(s[j..], s[j - 1] == '\n')
    ensures s != "" && (!lineStart || !exists k: nat :: Matches(s, k)) ==>
              Strip(s, lineStart) == [s[0]] + Strip(s[1..], s[0] == '\n')
  {
    hide Matches;
    CommentExactly(s, j);
    if Comment(s) {
      CommentExactly(s, CommentLength(s));
    }
  }

  // ---------------------------------------------------------------- splitting

  /** `strings.Split(s, "---")`, from the left; `seen` is the document so far. */
  function SplitFrom(seen: string, s: string): (docs: seq<string>)
    ensures docs != []
    decreases |s|
  {
    if s == "" then [seen]
    else if SEPARATOR <= s then [seen] + SplitFrom("", s[3..])
    else SplitFrom(seen + [s[0]], s[1..])
  }

  function Documents(s: string): seq<string> {
    SplitFrom("", Trim(Strip(s, true), IsDash))
  }

  // ---------------------------------------------------------------- what was joined is split again

  ghost predicate Contains(s: string, t: string) {
    exists i :: 0 <= i <= |s| && t <= s[i..]
  }

  /** A document that says nothing special to the splitter. */
  ghost predicate Tidy(doc: string) {
    && '#' !in doc && !Contains(doc, SEPARATOR)
    && (doc != "" ==> doc[0] != '-' && doc[|doc| - 1] != '-')
  }

  ghost predicate AllTidy(docs: seq<string>) {
    forall i :: 0 <= i < |docs| ==> Tidy(docs[i])
  }

  function Dashes(n: nat): string {
    seq(n, _ => '-')
  }

  lemma {:induction false} StripKeeps(s: string, lineStart: bool)
    requires '#' !in s
    ensures Strip(s, lineStart) == s
    decreases |s|
  {
    if s != "" {
      assert forall i :: 0 <= i < |s| ==> s[i] in s;
      StripKeeps(s[1..], s[0] == '\n');
    }
  }

  /** Suffixes of a document: no separator inside, no dash at the end. */
  ghost predicate Ending(s: string) {
    !Contains(s, SEPARATOR) && (s != "" ==> s[|s| - 1] != '-')
  }

  lemma EndingOfEnding(s: string)
    requires Ending(s) && s != ""
    ensures Ending(s[1..])
  {
    assert forall i :: 0 <= i < |s| ==> s[1..][i..] == s[i + 1..];
  }

  lemma NoSeparatorHere(s: string, rest: string)
    requires Ending(s) && s != "" && (rest == "" || SEPARATOR <= rest)
    ensures !(SEPARATOR <= s + rest)
  {
    assert s[0..] == s;
    assert (s + rest)[|s| - 1] != '-';
    assert forall i :: 0 <= i < 3 ==> SEPARATOR[i] == '-';
  }

  /** The splitter passes over a document and stops where it ends. */
  lemma {:induction false} SplitPasses(seen: string, s: string, rest: string)
    requires Ending(s) && (rest == "" || SEPARATOR <= rest)
    ensures SplitFrom(seen, s + rest) == SplitFrom(seen + s, rest)
    decreases |s|
  {
    if s == "" {
      assert s + rest == rest && seen + s == seen;
    } else {
      NoSeparatorHere(s, rest);
      assert (s + rest)[1..] == s[1..] + rest;
      EndingOfEnding(s);
      SplitPasses(seen + [s[0]], s[1..], rest);
      assert seen + [s[0]] + s[1..] == seen + s;
    }
  }

  lemma {:induction false} SplitInvertsJoin(docs: seq<string>)
    requires docs != [] && forall i :: 0 <= i < |docs| ==> Ending(docs[i])
    ensures SplitFrom("", Join(docs, SEPARATOR)) == docs
    decreases |docs|
  {
    if |docs| == 1 {
      SplitPasses("", docs[0], "");
      assert docs[0] + "" == docs[0] && "" + docs[0] == docs[0];
    } else {
      var rest := SEPARATOR + Join(docs[1..], SEPARATOR);
      assert Join(docs, SEPARATOR) == docs[0] + rest;
      SplitPasses("", docs[0], rest);
      assert "" + docs[0] == docs[0];
      assert rest[3..] == Join(docs[1..], SEPARATOR);
      SplitInvertsJoin(docs[1..]);
    }
  }

  lemma JoinFirst(first: string, rest: seq<string>)
    requires rest != []
    ensures Join([first] + rest, SEPARATOR) == first + SEPARATOR + Join(rest, SEPARATOR)
  {
    assert ([first] + rest)[1..] == rest;
  }

  lemma {:induction false} JoinInvertsSplit(seen: string, s: string)
    ensures Join(SplitFrom(seen, s), SEPARATOR) == seen + s
    decreases |s|
  {
    if s == "" {
    } else if SEPARATOR <= s {
      hide Join;
      JoinInvertsSplit("", s[3..]);
      JoinFirst(seen, SplitFrom("", s[3..]));
      assert s == SEPARATOR + s[3..];
    } else {
      hide Join;
      JoinInvertsSplit(seen + [s[0]], s[1..]);
      assert seen + [s[0]] + s[1..] == seen + s;
    }
  }

  lemma {:induction false} TrimLeftDashes(n: nat, s: string)
    requires s == "" || s[0] != '-'
    ensures TrimLeft(Dashes(n) + s, IsDash) == s
    decreases n
  {
    if n == 0 {
      assert Dashes(0) + s == s;
    } else {
      assert (Dashes(n) + s)[1..] == Dashes(n - 1) + s;
      TrimLeftDashes(n - 1, s);
    }
  }

  /** Trimming leaves no dash at either end. */
  lemma {:induction false} TrimLeftEnds(s: string)
    ensures TrimLeft(s, IsDash) != "" ==> TrimLeft(s, IsDash)[0] != '-'
    decreases |s|
  {
    if s != "" && IsDash(s[0]) {
      TrimLeftEnds(s[1..]);
    }
  }

  lemma {:induction false} TrimRightEnds(s: string)
    ensures var r := TrimRight(s, IsDash); r <= s && (r != "" ==> r[|r| - 1] != '-')
    decreases |s|
  {
    if s != "" && IsDash(s[|s| - 1]) {
      TrimRightEnds(s[..|s| - 1]);
    }
  }

  lemma {:induction false} JoinEnds(docs: seq<string>)
    requires docs != [] && (|docs| > 1 ==> docs[|docs| - 1] != "")
    ensures var j := Join(docs, SEPARATOR); var last := docs[|docs| - 1];
            last == "" || (j != "" && j[|j| - 1] == last[|last| - 1])
    decreases |docs|
  {
    if |docs| > 1 {
      JoinEnds(docs[1..]);
    }
  }

  lemma JoinHasNoHash(docs: seq<string>)
    requires forall i :: 0 <= i < |docs| ==> '#' !in docs[i]
    ensures '#' !in Join(docs, SEPARATOR)
    decreases |docs|
  {
    if |docs| > 1 {
      JoinHasNoHash(docs[1..]);
    }
  }

  /** With a document missing at either end, the joined text begins or ends with a dash. */
  lemma {:induction false} JoinShowsGaps(docs: seq<string>)
    requires |docs| > 1
    ensures var j := Join(docs, SEPARATOR);
            && j != ""
            && (docs[0] == "" ==> j[0] == '-')
            && (docs[|docs| - 1] == "" ==> j[|j| - 1] == '-')
    decreases |docs|
  {
    if |docs| > 2 {
      JoinShowsGaps(docs[1..]);
    }
  }

  ghost predicate NoGaps(docs: seq<string>) {
    |docs| == 1 || (|docs| > 1 && docs[0] != "" && docs[|docs| - 1] != "")
  }

  lemma TrimmedToJoin(docs: seq<string>, n: nat)
    requires docs != [] && AllTidy(docs) && NoGaps(docs)
    ensures Trim(Dashes(n) + Join(docs, SEPARATOR), IsDash) == Join(docs, SEPARATOR)
  {
    var j := Join(docs, SEPARATOR);
    assert Tidy(docs[0]) && Tidy(docs[|docs| - 1]);
    JoinEnds(docs);
    assert j == "" || j[0] == docs[0][0];
    TrimLeftDashes(n, j);
  }

  lemma SplitShowsNoGaps(text: string)
    ensures NoGaps(SplitFrom("", Trim(text, IsDash)))
  {
    var trimmed := Trim(text, IsDash);
    var docs := SplitFrom("", trimmed);
    TrimLeftEnds(text);
    TrimRightEnds(TrimLeft(text, IsDash));
    JoinInvertsSplit("", trimmed);
    hide SplitFrom, TrimLeft, TrimRight;
    assert "" + trimmed == trimmed;
    if |docs| > 1 {
      JoinShowsGaps(docs);
    }
  }

  /** Split inverts join, exactly: tidy documents, joined by separators after any run of dashes, are found again
      if and only if none is missing at either end. A single document is always found, even an empty one. */
  lemma DocumentsRoundTrip(docs: seq<string>, n: nat)
    requires docs != [] && AllTidy(docs)
    ensures Documents(Dashes(n) + Join(docs, SEPARATOR)) == docs <==>
          |docs| == 1 || (docs[0] != "" && docs[|docs| - 1] != "")
  {
    var text := Dashes(n) + Join(docs, SEPARATOR);
    NothingToStrip(docs, n);
    SplitShowsNoGaps(text);
    if NoGaps(docs) {
      TrimmedToJoin(docs, n);
      EndingsOf(docs);
      SplitInvertsJoin(docs);
    }
  }

  lemma NothingToStrip(docs: seq<string>, n: nat)
    requires AllTidy(docs)
    ensures Strip(Dashes(n) + Join(docs, SEPARATOR), true) == Dashes(n) + Join(docs, SEPARATOR)
  {
    forall i | 0 <= i < |docs|
      ensures '#' !in docs[i]
    {
      assert Tidy(docs[i]);
    }
    JoinHasNoHash(docs);
    StripKeeps(Dashes(n) + Join(docs, SEPARATOR), true);
  }

  lemma EndingsOf(docs: seq<string>)
    requires AllTidy(docs)
    ensures forall i :: 0 <= i < |docs| ==> Ending(docs[i])
  {
    forall i | 0 <= i < |docs|
      ensures Ending(docs[i])
    {
      assert Tidy(docs[i]);
    }
  }

  /** The comment expression does more than its purpose: a line with nothing after the `#` takes the next line with
      it, whatever that is, a separator included. */
  lemma BareHashTakesTheNextLine(line: string, rest: string)
    requires line != "" && '\n' !in line
    ensures Strip("#\n" + line + "\n" + rest, true) == "\n" + Strip(rest, true)
  {
    var s := "#\n" + line + "\n" + rest;
    assert s[0] == '#' && s[1] == '\n' && Blanks(s) == 0;
    assert s[2..] == line + "\n" + rest;
    LineEnds(line, rest);
    var n := CommentLength(s);
    assert n == 2 + |line|;
    assert s[n - 1] == line[|line| - 1];
    assert s[n..] == "\n" + rest && s[n..][1..] == rest;
  }

  lemma {:induction false} LineEnds(line: string, rest: string)
    requires '\n' !in line
    ensures LineLength(line + "\n" + rest) == |line|
    decreases |line|
  {
    var s := line + "\n" + rest;
    if line != "" {
      assert s[1..] == line[1..] + "\n" + rest;
      LineEnds(line[1..], rest);
    }
  }

  /** Any indented line that starts with a single `#` is removed up to its newline: the shebang of a script inside a
      document is a comment like any other. */
  lemma CommentLinesAreRemoved(indent: string, line: string, rest: string)
    requires forall c :: c in indent ==> IsBlank(c)
    requires line != "" && line[0] != '#' && '\n' !in line
    ensures Strip(indent + "#" + line + "\n" + rest, true) == "\n" + Strip(rest, true)
  {
    var after := "#" + line + "\n" + rest;
    var s := indent + after;
    assert s == indent + "#" + line + "\n" + rest;
    BlanksEnd(indent, after);
    assert s[|indent| + 2..] == line[1..] + "\n" + rest;
    LineEnds(line[1..], rest);
    var n := CommentLength(s);
    assert n == |indent| + 1 + |line|;
    assert s[n - 1] == line[|line| - 1];
    assert s[n..] == "\n" + rest && s[n..][1..] == rest;
  }

  lemma {:induction false} BlanksEnd(indent: string, after: string)
    requires forall c :: c in indent ==> IsBlank(c)
    requires after != "" && !IsBlank(after[0])
    ensures Blanks(indent + after) == |indent|
    decreases |indent|
  {
    if indent == "" {
      assert indent + after == after;
    } else {
      assert indent[0] in indent;
      assert (indent + after)[1..] == indent[1..] + after;
      BlanksEnd(indent[1..], after);
    }
  }
}
