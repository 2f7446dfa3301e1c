/** The reader of a POSIX shell (IEEE Std 1003.1-2017, XCU): token recognition (section 2.3), quoting (2.2.1 to
    2.2.3), here-documents (2.7.4) and comments, one character at a time. */
module Shell {

  /** How a character got into a word. Only bare and double-quoted characters can start an expansion, and only
      bare ones are subject to field splitting and pathname expansion. */
  datatype Quoting = Bare | Double | Literal

  datatype Letter = Letter(c: char, quoting: Quoting)

  type Word = seq<Letter>

  datatype Token = Word(word: Word) | Operator(op: string)

  datatype HereDoc = HereDoc(body: string, expands: bool)

  /** One complete command line and the here-documents it started. */
  datatype Line = Line(tokens: seq<Token>, docs: seq<HereDoc>)

  datatype Mode =
    | Blank
    | InWord(word: Word)
    | InSingle(word: Word)
    | InDouble(word: Word)
    | Escaped(word: Word)
    | EscapedInDouble(word: Word)
    | AfterDollar(word: Word)
    | InSubstitution(word: Word, depth: nat)
    | InOperator(op: string)
    | InComment(text: string)
    | InHereDoc(line: string, body: string)

  /** `pending` are the delimiters of here-documents that start after this line. */
  datatype Reader = Reader(
    lines: seq<Line>,
    comments: seq<string>,
    tokens: seq<Token>,
    docs: seq<HereDoc>,
    pending: seq<Word>,
    delimiterNext: bool,
    mode: Mode)

  const FRESH := Reader([], [], [], [], [], false, Blank)

  predicate StartsOperator(c: char) {
    c == '|' || c == '&' || c == ';' || c == '<' || c == '>' || c == '(' || c == ')'
  }

  /** The second character of a two-character operator. */
  predicate ExtendsOperator(a: char, b: char) {
    match a
    case '|' => b == '|'
    case '&' => b == '&'
    case ';' => b == ';'
    case '<' => b == '<' || b == '&' || b == '>'
    case '>' => b == '>' || b == '&' || b == '|'
    case _ => false
  }

  /** Quote removal (section 2.6.7): the characters alone. */
  function Unquote(w: Word): string {
    seq(|w|, i requires 0 <= i < |w| => w[i].c)
  }

  function AnyQuoted(w: Word): bool {
    exists i :: 0 <= i < |w| && w[i].quoting != Bare
  }

  function EndWord(r: Reader, w: Word): Reader {
    r.(tokens := r.tokens + [Word(w)],
       pending := if r.delimiterNext then r.pending + [w] else r.pending,
       delimiterNext := false,
       mode := Blank)
  }

  function EndLine(r: Reader): Reader {
    if r.tokens == [] && r.docs == [] then r.(mode := Blank)
    else r.(lines := r.lines + [Line(r.tokens, r.docs)], tokens := [], docs := [], mode := Blank)
  }

  function NewLine(r: Reader): Reader {
    if r.pending != [] then r.(mode := InHereDoc("", "")) else EndLine(r)
  }

  function EndOperator(r: Reader, op: string): Reader {
    r.(tokens := r.tokens + [Operator(op)], delimiterNext := r.delimiterNext || op == "<<", mode := Blank)
  }

  /** A character where no token is being read. */
  function Begin(r: Reader, c: char): Reader {
    if c == '\n' then NewLine(r)
    else if c == ' ' || c == '\t' then r.(mode := Blank)
    else if c == '#' then r.(mode := InComment("#"))
    else if StartsOperator(c) then r.(mode := InOperator([c]))
    else Extend(r, [], c)
  }

  /** A character that is not quoted and belongs to the word `w`. */
  function Extend(r: Reader, w: Word, c: char): Reader {
    if c == '\'' then r.(mode := InSingle(w))
    else if c == '"' then r.(mode := InDouble(w))
    else if c == '\\' then r.(mode := Escaped(w))
    else if c == '$' then r.(mode := AfterDollar(w + [Letter('$', Bare)]))
    else r.(mode := InWord(w + [Letter(c, Bare)]))
  }

  function Continue(r: Reader, w: Word, c: char): Reader {
    if c == '\n' || c == ' ' || c == '\t' || StartsOperator(c) then Begin(EndWord(r, w), c) else Extend(r, w, c)
  }

  /** The line of a here-document is complete. */
  function EndHereLine(r: Reader, line: string, body: string): Reader {
    if r.pending != [] && line == Unquote(r.pending[0]) then
      var ended := r.(docs := r.docs + [HereDoc(body, !AnyQuoted(r.pending[0]))], pending := r.pending[1..]);
      if ended.pending == [] then EndLine(ended) else ended.(mode := InHereDoc("", ""))
    else r.(mode := InHereDoc("", body + line + "\n"))
  }

  function Next(r: Reader, c: char): Reader {
    match r.mode
    case Blank => Begin(r, c)
    case InWord(w) => Continue(r, w, c)
    case InSingle(w) => r.(mode := if c == '\'' then InWord(w) else InSingle(w + [Letter(c, Literal)]))
    case InDouble(w) =>
      r.(mode := if c == '"' then InWord(w) else if c == '\\' then EscapedInDouble(w)
        else InDouble(w + [Letter(c, Double)]))
    case Escaped(w) =>
      r.(mode := if c != '\n' then InWord(w + [Letter(c, Literal)]) else if w == [] then Blank else InWord(w))
    case EscapedInDouble(w) =>
      r.(mode := if c == '\n' then InDouble(w)
                 else if c in ['$', '`', '"', '\\'] then InDouble(w + [Letter(c, Literal)])
                 else InDouble(w + [Letter('\\', Double), Letter(c, Double)]))
    case AfterDollar(w) =>
      if c == '(' then r.(mode := InSubstitution(w + [Letter('(', Bare)], 1)) else Continue(r, w, c)
    case InSubstitution(w, depth) =>
      var more := w + [Letter(c, Bare)];
      r.(mode := if c == ')' && depth <= 1 then InWord(more)
                 else InSubstitution(more, if c == ')' then depth - 1 else if c == '(' then depth + 1 else depth))
    case InOperator(op) =>
      if |op| == 1 && ExtendsOperator(op[0], c) then r.(mode := InOperator(op + [c])) else Begin(EndOperator(r, op), c)
    case InComment(text) =>
      if c == '\n' then NewLine(r.(comments := r.comments + [text])) else r.(mode := InComment(text + [c]))
    case InHereDoc(line, body) =>
      if c == '\n' then EndHereLine(r, line, body) else r.(mode := InHereDoc(line + [c], body))
  }

  function Read(r: Reader, s: string): Reader
    decreases |s|
  {
    if s == "" then r else Read(Next(r, s[0]), s[1..])
  }

  /** The text is complete: no quote, substitution or here-document is left open. */
  predicate Complete(r: Reader) {
    r.pending == [] && (r.mode.Blank? || r.mode.InWord? || r.mode.InOperator? || r.mode.InComment?)
  }

  /** The end of the input ends the last line. */
  function AtEnd(r: Reader): Reader
    requires Complete(r)
  {
    EndLine(match r.mode
            case InWord(w) => EndWord(r, w)
            case InOperator(op) => EndOperator(r, op)
            case InComment(text) => r.(comments := r.comments + [text])
            case _ => r)
  }

  // ---------------------------------------------------------------- reading in pieces

  lemma {:induction false} ReadConcat(r: Reader, s: string, t: string)
    ensures Read(r, s + t) == Read(Read(r, s), t)
    decreases |s|
  {
    if s == "" {
      assert s + t == t;
    } else {
      assert (s + t)[1..] == s[1..] + t;
      ReadConcat(Next(r, s[0]), s[1..], t);
    }
  }

  /** Reading one piece after another. */
  lemma ReadThen(r: Reader, s: string, r1: Reader, t: string, r2: Reader)
    requires Read(r, s) == r1 && Read(r1, t) == r2
    ensures Read(r, s + t) == r2
  {
    ReadConcat(r, s, t);
  }

  lemma ReadOne(r: Reader, c: char)
    ensures Read(r, [c]) == Next(r, c)
  {
    assert [c][1..] == "";
    assert Read(Next(r, c), "") == Next(r, c);
  }

  /** Characters that mean nothing special anywhere in a word. */
  predicate PlainChar(c: char) {
    'a' <= c <= 'z' || 'A' <= c <= 'Z' || '0' <= c <= '9' || c in ['-', '+', '_', '=', '/', '.']
  }

  ghost predicate Plain(s: string) {
    forall c :: c in s ==> PlainChar(c)
  }

  /** Characters that all got into a word in the same way. */
  function Marked(s: string, quoting: Quoting): Word {
    seq(|s|, i requires 0 <= i < |s| => Letter(s[i], quoting))
  }

  function Bares(s: string): Word {
    Marked(s, Bare)
  }

  lemma {:induction false} ReadPlain(r: Reader, w: Word, s: string)
    requires r.mode == InWord(w) && Plain(s)
    ensures Read(r, s) == r.(mode := InWord(w + Bares(s)))
    decreases |s|
  {
    if s == "" {
      assert w + Bares(s) == w;
    } else {
      var more := w + [Letter(s[0], Bare)];
      assert s[0] in s;
      ReadPlain(r.(mode := InWord(more)), more, s[1..]);
      assert more + Bares(s[1..]) == w + Bares(s);
    }
  }

  lemma PlainStartsWord(r: Reader, c: char)
    requires r.mode == Blank && PlainChar(c)
    ensures Next(r, c) == r.(mode := InWord([Letter(c, Bare)]))
  {
    assert [] + [Letter(c, Bare)] == [Letter(c, Bare)];
  }

  /** A plain word, from where no token is being read. */
  lemma ReadPlainWord(r: Reader, s: string)
    requires r.mode == Blank && s != "" && Plain(s)
    ensures Read(r, s) == r.(mode := InWord(Bares(s)))
  {
    assert s[0] in s;
    PlainStartsWord(r, s[0]);
    hide Next;
    ReadPlain(r.(mode := InWord([Letter(s[0], Bare)])), [Letter(s[0], Bare)], s[1..]);
    assert [Letter(s[0], Bare)] + Bares(s[1..]) == Bares(s);
  }

  /** A word and the blank after it. */
  lemma ReadPlainThenBlank(r: Reader, s: string)
    requires r.mode == Blank && s != "" && Plain(s)
    ensures Read(r, s + " ") == EndWord(r, Bares(s))
  {
    ReadPlainWord(r, s);
    ReadConcat(r, s, " ");
    ReadOne(r.(mode := InWord(Bares(s))), ' ');
  }

  lemma {:induction false} ReadComment(r: Reader, text: string, s: string)
    requires r.mode == InComment(text) && '\n' !in s
    ensures Read(r, s) == r.(mode := InComment(text + s))
    decreases |s|
  {
    if s == "" {
      assert text + s == text;
    } else {
      ReadComment(r.(mode := InComment(text + [s[0]])), text + [s[0]], s[1..]);
      assert text + [s[0]] + s[1..] == text + s;
    }
  }

  lemma {:induction false} ReadDouble(r: Reader, w: Word, s: string)
    requires r.mode == InDouble(w) && '"' !in s && '\\' !in s
    ensures Read(r, s) == r.(mode := InDouble(w + Doubles(s)))
    decreases |s|
  {
    if s == "" {
      assert w + Doubles(s) == w;
    } else {
      var more := w + [Letter(s[0], Double)];
      ReadDouble(r.(mode := InDouble(more)), more, s[1..]);
      assert more + Doubles(s[1..]) == w + Doubles(s);
    }
  }

  function Doubles(s: string): Word {
    Marked(s, Double)
  }

  function Literals(s: string): Word {
    Marked(s, Literal)
  }

  lemma {:induction false} ReadSingle(r: Reader, w: Word, s: string)
    requires r.mode == InSingle(w) && '\'' !in s
    ensures Read(r, s) == r.(mode := InSingle(w + Literals(s)))
    decreases |s|
  {
    if s == "" {
      assert w + Literals(s) == w;
    } else {
      var more := w + [Letter(s[0], Literal)];
      ReadSingle(r.(mode := InSingle(more)), more, s[1..]);
      assert more + Literals(s[1..]) == w + Literals(s);
    }
  }
}
