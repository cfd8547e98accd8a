/**
 * The lexer of the query language (`src/parser/compiler.rs`, `Compiler::
 * tokenize`, `parse_numeric`, `parse_date`): it turns a program such as
 * `WHERE event = "DBMSSQL" AND duration > 1000` into tokens. Regular
 * expressions are opaque patterns whose validity the host decides, date-times
 * are integer instants in nanoseconds and relative dates are resolved against
 * the instant the compiler captured when it was created.
 */
module Lexer {
  import opened Base
  import opened Host

  datatype Token =
    | WHERE
    | AND
    | OR
    | OpenBrace
    | CloseBrace
    | Identifier(name: string)
    | String(text: string)
    | Number(value: nat)
    | Regex(pattern: string)
    | Date(instant: int)
    | DESC
    | ASC
    | Less
    | Greater
    | Equal
    | LE
    | GE
    | NE

  /** `ParseError`. The payloads of the regex, chrono and float errors are
      opaque in the source and are dropped. */
  datatype ParseError =
    | UnexpectedToken(token: Token)
    | UnexpectedChar(c: char)
    | RegexParseError
    | TimeParseError
    | FloatParseError
    | InvalidDate
    | UnexpectedEndOfInput

  /** `Compiler`: the instant every `'now…'` literal is relative to, captured
      once, and the collaborators. */
  datatype Compiler = Compiler(now: int, host: Host)

  const NanosPerSecond: nat := 1_000_000_000

  // ---------------------------------------------------------------------
  // Words

  predicate IsIdentChar(c: char) { IsAsciiLetter(c) || IsDigit(c) || c == '_' || c == ':' }

  predicate IsKeyword(w: string)
  {
    w == "WHERE" || w == "AND" || w == "OR" || w == "DESC" || w == "ASC"
  }

  /** A word as the lexer reads it: a letter, then letters, digits, `_`, `:`. */
  predicate IsWord(w: string)
  {
    |w| > 0 && IsAsciiLetter(w[0]) && forall k :: 0 <= k < |w| ==> IsIdentChar(w[k])
  }

  /** The token of a word: a keyword on an exact, case-sensitive match,
      otherwise an identifier carrying the word. */
  function Word(w: string): (t: Token)
    ensures t.Identifier? <==> !IsKeyword(w)
    ensures t.Identifier? ==> t.name == w
  {
    if w == "WHERE" then WHERE
    else if w == "AND" then AND
    else if w == "OR" then OR
    else if w == "DESC" then DESC
    else if w == "ASC" then ASC
    else Identifier(w)
  }

  // ---------------------------------------------------------------------
  // Numbers and dates

  /** `parse_numeric`: the run of numeric characters starting at `i`, read as
      a number. `str::parse::<f64>` accepts the run only when it is a non-empty
      string of ASCII digits; the result is the value and the end of the run. */
  function ParseNumeric(c: Compiler, s: string, i: nat): (r: Result<(nat, nat), ParseError>)
    requires i <= |s|
    ensures r.Ok? ==> i < r.value.1 <= |s| && AllDigits(s[i..r.value.1])
    ensures r.Ok? ==> r.value.0 == DigitsValue(s[i..r.value.1])
    ensures r.Ok? ==> r.value.1 == |s| || !c.host.isNumeric(s[r.value.1])
    ensures r.Err? ==> r.error == FloatParseError
  {
    var e := ScanWhile(s, i, c.host.isNumeric);
    if i < e && AllDigits(s[i..e]) then Ok((DigitsValue(s[i..e]), e)) else Err(FloatParseError)
  }

  /** The length of one unit of a relative date, in seconds. */
  function UnitSeconds(u: char): Option<nat>
  {
    if u == 's' then Some(1)
    else if u == 'm' then Some(60)
    else if u == 'h' then Some(3600)
    else if u == 'd' then Some(86400)
    else if u == 'w' then Some(604800)
    else None
  }

  /** The longest `Duration` chrono builds, in whole seconds: it holds at most
      `i64::MAX` milliseconds, and `Duration::seconds`, `minutes`, `hours`,
      `days` and `weeks` panic on anything longer. */
  const MaxDurationSeconds: nat := 9_223_372_036_854_775

  /** `now - Duration::seconds(secs)`: chrono panics when the duration is too
      long, and when the instant it leads to is outside its calendar. */
  function Before(c: Compiler, secs: nat): (r: Exec<Result<Token, ParseError>>)
    ensures !r.Loops?
  {
    if secs > MaxDurationSeconds then Panics
    else
      var t := c.now - secs * NanosPerSecond;
      if c.host.inCalendar(t) then Returns(Ok(Date(t))) else Panics
  }

  /** The date after `now-` in a relative literal: a count, then a unit;
      whatever follows the unit is ignored. */
  function RelativeDate(c: Compiler, body: string): (r: Exec<Result<Token, ParseError>>)
    requires |body| >= 4
    ensures !r.Loops?
  {
    match ParseNumeric(c, body, 4)
    case Err(e) => Returns(Err(e))
    case Ok((n, k)) =>
      if k == |body| then Returns(Err(UnexpectedEndOfInput))
      else match UnitSeconds(body[k])
        case Some(u) => Before(c, n * u)
        case None => Returns(Err(UnexpectedChar(body[k])))
  }

  /** `parse_date` on the text between the quotes: `now`, `now-N<unit>`, or
      an absolute `%Y-%m-%d %H:%M:%S` date-time. Only a relative date can
      panic. */
  function ParseDate(c: Compiler, body: string): (r: Exec<Result<Token, ParseError>>)
    ensures !r.Loops?
    ensures r.Panics? ==> |body| >= 4 && body[..4] == "now-"
    ensures r.Returns? && r.value.Ok? ==> r.value.value.Date?
  {
    if |body| >= 3 && body[..3] == "now" then
      if |body| == 3 then Returns(Ok(Date(c.now)))
      else if body[3] == '-' then
        assert body[..4] == body[..3] + [body[3]];
        RelativeDate(c, body)
      else Returns(Err(InvalidDate))
    else
      match c.host.parseDateTime(body)
      case Some(t) => Returns(Ok(Date(t)))
      case None => Returns(Err(TimeParseError))
  }

  // ---------------------------------------------------------------------
  // One token

  /** The lexer's progress after one step: the token read, if any (a space
      yields none), and where the next step starts. */
  datatype Step = Step(token: Option<Token>, next: nat)

  /** The text between the delimiter at `i` and the next copy of it (or the
      end of the input), and the position after the closing delimiter. There
      is no escape: the first copy of the delimiter closes the text. */
  function Delimited(s: string, i: nat, d: char): (r: (string, nat))
    requires i < |s|
    ensures i < r.1 <= |s|
    ensures d !in r.0
  {
    var e := ScanFor(s, i + 1, d);
    (s[i + 1..e], if e < |s| then e + 1 else e)
  }

  /** One iteration of `tokenize`'s loop, on the character at `i`. */
  function LexAt(c: Compiler, s: string, i: nat): (r: Exec<Result<Step, ParseError>>)
    requires i < |s|
    ensures !r.Loops?
    ensures r.Panics? ==> s[i] == '\''
    ensures r.Returns? && r.value.Ok? ==> i < r.value.value.next <= |s|
  {
    var ch := s[i];
    if IsAsciiLetter(ch) then
      var e := ScanWhile(s, i, IsIdentChar);
      Returns(Ok(Step(Some(Word(s[i..e])), e)))
    else if IsDigit(ch) then
      match ParseNumeric(c, s, i)
      case Err(x) => Returns(Err(x))
      // the character after the number is consumed unread
      case Ok((n, e)) => Returns(Ok(Step(Some(Number(n)), if e < |s| then e + 1 else e)))
    else if ch == '"' then
      var (text, next) := Delimited(s, i, '"');
      Returns(Ok(Step(Some(String(text)), next)))
    else if ch == '\'' then
      var (body, next) := Delimited(s, i, '\'');
      match ParseDate(c, body)
      case Returns(Ok(t)) => Returns(Ok(Step(Some(t), next)))
      case Returns(Err(x)) => Returns(Err(x))
      case Panics => Panics
      case Loops => Loops
    else if ch == '/' then
      var (pattern, next) := Delimited(s, i, '/');
      if c.host.regexValid(pattern) then Returns(Ok(Step(Some(Regex(pattern)), next))) else Returns(Err(RegexParseError))
    else if ch == '(' then Returns(Ok(Step(Some(OpenBrace), i + 1)))
    else if ch == ')' then Returns(Ok(Step(Some(CloseBrace), i + 1)))
    else if ch == '=' then Returns(Ok(Step(Some(Token.Equal), i + 1)))
    else if ch == '>' then
      if i + 1 < |s| && s[i + 1] == '=' then Returns(Ok(Step(Some(GE), i + 2))) else Returns(Ok(Step(Some(Token.Greater), i + 1)))
    else if ch == '<' then
      if i + 1 < |s| && s[i + 1] == '=' then Returns(Ok(Step(Some(LE), i + 2))) else Returns(Ok(Step(Some(Token.Less), i + 1)))
    else if ch == '!' then
      if i + 1 == |s| then Returns(Err(UnexpectedEndOfInput))
      else if s[i + 1] == '=' then Returns(Ok(Step(Some(NE), i + 2)))
      else Returns(Err(UnexpectedChar(s[i + 1])))
    else if ch == ' ' then Returns(Ok(Step(None, i + 1)))
    else Returns(Err(UnexpectedChar(ch)))
  }

  /** What `tokenize` gives: the tokens, the first error met, or a panic. */
  type Lexed = Exec<Result<seq<Token>, ParseError>>

  /** Put a token in front of a token list, unless the list is an error or
      the lexer panicked. */
  function Cons(t: Option<Token>, r: Lexed): Lexed
  {
    match r
    case Returns(Ok(ts)) => Returns(Ok(if t.Some? then [t.value] + ts else ts))
    case _ => r
  }

  /** `tokenize` from position `i`: the tokens of the rest of the program,
      the first error met, or the panic of a relative date out of range. */
  function TokenizeFrom(c: Compiler, s: string, i: nat): (r: Lexed)
    requires i <= |s|
    ensures !r.Loops?
    decreases |s| - i
  {
    if i == |s| then Returns(Ok([]))
    else
      match LexAt(c, s, i)
      case Returns(Err(e)) => Returns(Err(e))
      case Returns(Ok(step)) => Cons(step.token, TokenizeFrom(c, s, step.next))
      case Panics => Panics
      case Loops => Loops
  }

  function Tokenize(c: Compiler, program: string): Lexed
  {
    TokenizeFrom(c, program, 0)
  }

  // ---------------------------------------------------------------------
  // Properties of single steps

  /** A word is read up to the first character that cannot continue it, and
      is a keyword exactly when it spells one. */
  lemma WordToken(c: Compiler, s: string, i: nat, w: string)
    requires IsWord(w) && Occurs(s, i, w)
    requires i + |w| < |s| ==> !IsIdentChar(s[i + |w|])
    ensures LexAt(c, s, i) == Returns(Ok(Step(Some(Word(w)), i + |w|)))
    ensures LexAt(c, s, i).value.value.token.value.Identifier? <==> !IsKeyword(w)
  {
    OccursIndex(s, i, w, 0);
    forall k | i <= k < i + |w| ensures IsIdentChar(s[k]) {
      OccursIndex(s, i, w, k - i);
    }
    ScanWhileUnique(s, i, IsIdentChar, i + |w|);
    OccursSlice(s, i, w);
  }

  /** The character after position `i`, if any. */
  function Peek(s: string, i: nat): (r: Option<char>)
    ensures r.Some? <==> i + 1 < |s|
  {
    if i + 1 < |s| then Some(s[i + 1]) else None
  }

  /** `>=`, `<=` and `!=` are single tokens; `>` and `<` not followed by `=`
      stand alone; `!` must be followed by `=`. */
  lemma Operators(c: Compiler, s: string, i: nat)
    requires i < |s|
    ensures s[i] == '>' ==> LexAt(c, s, i) == (if Peek(s, i) == Some('=') then Returns(Ok(Step(Some(GE), i + 2))) else Returns(Ok(Step(Some(Token.Greater), i + 1))))
    ensures s[i] == '<' ==> LexAt(c, s, i) == (if Peek(s, i) == Some('=') then Returns(Ok(Step(Some(LE), i + 2))) else Returns(Ok(Step(Some(Token.Less), i + 1))))
    ensures s[i] == '!' ==> LexAt(c, s, i) == (if Peek(s, i) == Some('=') then Returns(Ok(Step(Some(NE), i + 2))) else if Peek(s, i) == None then Returns(Err(UnexpectedEndOfInput)) else Returns(Err(UnexpectedChar(s[i + 1]))))
  {
  }

  /** A character outside the lexer's alphabet (a tab or a newline, say) stops
      the whole program with `UnexpectedChar`, whatever follows it. */
  lemma UnknownCharRejected(c: Compiler, s: string, i: nat)
    requires i < |s|
    requires !IsAsciiLetter(s[i]) && !IsDigit(s[i]) && s[i] !in "\"'/()=<>! "
    ensures TokenizeFrom(c, s, i) == Returns(Err(UnexpectedChar(s[i])))
  {
  }

  /** `'now'` is the captured instant, so every literal of one program refers
      to the same `now`. */
  lemma NowIsCaptured(c: Compiler, body: string)
    requires body == "now"
    ensures ParseDate(c, body) == Returns(Ok(Date(c.now)))
  {
  }

  /** `'now-N<u>'` is `N` units before the captured instant; a count longer
      than chrono's longest duration, or one that leads out of its calendar,
      panics. */
  lemma {:induction false} RelativeDateValue(c: Compiler, n: nat, u: char, tail: string)
    requires NumericOnAscii(c.host) && UnitSeconds(u).Some?
    ensures var secs := n * UnitSeconds(u).value;
      ParseDate(c, "now-" + NatToDigits(n) + [u] + tail)
        == if secs <= MaxDurationSeconds && c.host.inCalendar(c.now - secs * NanosPerSecond)
           then Returns(Ok(Date(c.now - secs * NanosPerSecond)))
           else Panics
  {
    var d := NatToDigits(n);
    var body := "now-" + d + [u] + tail;
    assert body[..3] == "now" && body[3] == '-';
    ScanWhileUnique(body, 4, c.host.isNumeric, 4 + |d|);
    assert body[4..4 + |d|] == d;
    NatToDigitsRoundTrip(n);
  }

  /** The errors of a relative date: a sign other than `-` after `now`, a
      missing count, an unknown unit and a missing unit. */
  lemma {:induction false} RelativeDateErrors(c: Compiler, n: nat, x: char, tail: string)
    requires NumericOnAscii(c.host)
    ensures x != '-' ==> ParseDate(c, "now" + [x] + tail) == Returns(Err(InvalidDate))
    ensures x < 128 as char && !IsDigit(x) ==> ParseDate(c, "now-" + [x] + tail) == Returns(Err(FloatParseError))
    ensures ParseDate(c, "now-" + NatToDigits(n)) == Returns(Err(UnexpectedEndOfInput))
    ensures x < 128 as char && !IsDigit(x) && UnitSeconds(x).None? ==>
      ParseDate(c, "now-" + NatToDigits(n) + [x] + tail) == Returns(Err(UnexpectedChar(x)))
  {
    var d := NatToDigits(n);
    var b1 := "now" + [x] + tail;
    assert b1[..3] == "now" && b1[3] == x;
    var b2 := "now-" + [x] + tail;
    assert b2[..3] == "now" && b2[3] == '-' && b2[4] == x;
    if x < 128 as char && !IsDigit(x) {
      ScanWhileUnique(b2, 4, c.host.isNumeric, 4);
    }
    var b3 := "now-" + d;
    assert b3[..3] == "now" && b3[3] == '-';
    ScanWhileUnique(b3, 4, c.host.isNumeric, |b3|);
    assert b3[4..] == d;
    var b4 := "now-" + d + [x] + tail;
    assert b4[..3] == "now" && b4[3] == '-';
    if x < 128 as char && !IsDigit(x) {
      ScanWhileUnique(b4, 4, c.host.isNumeric, 4 + |d|);
      assert b4[4..4 + |d|] == d;
    }
  }

  // ---------------------------------------------------------------------
  // Spelling tokens back: the lexer's partner

  /** The tokens that have a spelling the lexer reads back as themselves:
      identifiers that are words but not keywords, strings and patterns
      without their closing delimiter, valid patterns, and dates a whole
      number of seconds before `now`, no further back than chrono's longest
      duration and within its calendar. */
  predicate Spellable(c: Compiler, t: Token)
  {
    match t
    case Identifier(n) => IsWord(n) && !IsKeyword(n)
    case String(x) => '"' !in x
    case Regex(p) => '/' !in p && c.host.regexValid(p)
    case Date(d) =>
      && d <= c.now && (c.now - d) % NanosPerSecond == 0
      && (c.now - d) / NanosPerSecond <= MaxDurationSeconds && c.host.inCalendar(d)
    case _ => true
  }

  /** A spelling of a token in the query language. */
  function Spell(c: Compiler, t: Token): string
  {
    match t
    case WHERE => "WHERE"
    case AND => "AND"
    case OR => "OR"
    case DESC => "DESC"
    case ASC => "ASC"
    case Identifier(n) => n
    case String(x) => "\"" + x + "\""
    case Number(v) => NatToDigits(v)
    case Regex(p) => "/" + p + "/"
    case Date(d) => "'now-" + NatToDigits(if d <= c.now then (c.now - d) / NanosPerSecond else 0) + "s'"
    case OpenBrace => "("
    case CloseBrace => ")"
    case Less => "<"
    case Greater => ">"
    case Equal => "="
    case LE => "<="
    case GE => ">="
    case NE => "!="
  }

  /** A program spelling every token followed by a space. */
  function SpellAll(c: Compiler, ts: seq<Token>): string
  {
    if ts == [] then "" else Spell(c, ts[0]) + " " + SpellAll(c, ts[1..])
  }

  /** Spelled keywords and identifiers read back as themselves. */
  lemma WordSpelled(c: Compiler, t: Token)
    requires Spellable(c, t)
    requires t.WHERE? || t.AND? || t.OR? || t.DESC? || t.ASC? || t.Identifier?
    ensures IsWord(Spell(c, t)) && Word(Spell(c, t)) == t
  {
  }

  /** A space is skipped. */
  lemma SpaceStep(c: Compiler, s: string, e: nat)
    requires e < |s| && s[e] == ' '
    ensures TokenizeFrom(c, s, e) == TokenizeFrom(c, s, e + 1)
  {
    assert LexAt(c, s, e) == Returns(Ok(Step(None, e + 1)));
  }

  lemma TokenStep(c: Compiler, s: string, i: nat, t: Token, next: nat)
    requires i < |s| && LexAt(c, s, i) == Returns(Ok(Step(Some(t), next)))
    ensures TokenizeFrom(c, s, i) == Cons(Some(t), TokenizeFrom(c, s, next))
  {
  }

  lemma {:induction false} LexWordSpelled(c: Compiler, s: string, i: nat, t: Token)
    requires t.WHERE? || t.AND? || t.OR? || t.DESC? || t.ASC? || t.Identifier?
    requires Spellable(c, t) && Occurs(s, i, Spell(c, t) + " ")
    ensures i < |s| && LexAt(c, s, i) == Returns(Ok(Step(Some(t), i + |Spell(c, t)|)))
  {
    var w := Spell(c, t);
    OccursSplit(s, i, w, " ");
    OccursIndex(s, i + |w|, " ", 0);
    WordSpelled(c, t);
    WordToken(c, s, i, w);
  }

  /** A spelled number followed by a non-numeric character (or the end) is
      read as its value, ending where its digits end. */
  lemma NumericRun(c: Compiler, s: string, i: nat, n: nat)
    requires NumericOnAscii(c.host)
    requires Occurs(s, i, NatToDigits(n))
    requires i + |NatToDigits(n)| < |s| ==> !c.host.isNumeric(s[i + |NatToDigits(n)|])
    ensures i < |s| && IsDigit(s[i])
    ensures ParseNumeric(c, s, i) == Ok((n, i + |NatToDigits(n)|))
  {
    var w := NatToDigits(n);
    var e := i + |w|;
    OccursIndex(s, i, w, 0);
    forall k | i <= k < e ensures c.host.isNumeric(s[k]) {
      OccursIndex(s, i, w, k - i);
    }
    ScanWhileUnique(s, i, c.host.isNumeric, e);
    OccursSlice(s, i, w);
    NatToDigitsRoundTrip(n);
  }

  /** The lexer's step on a digit, once the number is read. */
  lemma NumberStep(c: Compiler, s: string, i: nat, n: nat, e: nat)
    requires i < |s| && IsDigit(s[i]) && ParseNumeric(c, s, i) == Ok((n, e))
    ensures LexAt(c, s, i) == Returns(Ok(Step(Some(Number(n)), if e < |s| then e + 1 else e)))
  {
  }

  lemma {:induction false} LexNumberSpelled(c: Compiler, s: string, i: nat, n: nat)
    requires NumericOnAscii(c.host)
    requires Occurs(s, i, NatToDigits(n) + " ")
    ensures i < |s| && LexAt(c, s, i) == Returns(Ok(Step(Some(Number(n)), i + |NatToDigits(n)| + 1)))
  {
    var e := i + |NatToDigits(n)|;
    assert Occurs(s, i, NatToDigits(n)) && e < |s| && s[e] == ' ' by {
      OccursSplit(s, i, NatToDigits(n), " ");
      OccursIndex(s, e, " ", 0);
    }
    assert i < |s| && IsDigit(s[i]) && ParseNumeric(c, s, i) == Ok((n, e)) by {
      NumericRun(c, s, i, n);
    }
    NumberStep(c, s, i, n, e);
  }

  lemma ExactSeconds(now: int, d: int)
    requires d <= now && (now - d) % NanosPerSecond == 0
    ensures now - ((now - d) / NanosPerSecond) * NanosPerSecond == d
  {
  }

  /** The body of a spelled date. */
  function DateBody(c: Compiler, t: Token): string
    requires t.Date?
  {
    "now-" + NatToDigits(if t.instant <= c.now then (c.now - t.instant) / NanosPerSecond else 0) + "s"
  }

  /** A spelled date's body reads back as the date. */
  lemma DateBodyParses(c: Compiler, t: Token)
    requires NumericOnAscii(c.host) && t.Date? && Spellable(c, t)
    ensures ParseDate(c, DateBody(c, t)) == Returns(Ok(t))
  {
    var n := (c.now - t.instant) / NanosPerSecond;
    ExactSeconds(c.now, t.instant);
    assert DateBody(c, t) == "now-" + NatToDigits(n) + ['s'] + "";
    SecondsBefore(c, n, t.instant);
  }

  /** `'now-Ns'` is the instant `N` whole seconds before `now`. */
  lemma SecondsBefore(c: Compiler, n: nat, d: int)
    requires NumericOnAscii(c.host) && c.now - n * NanosPerSecond == d
    requires n <= MaxDurationSeconds && c.host.inCalendar(d)
    ensures ParseDate(c, "now-" + NatToDigits(n) + ['s'] + "") == Returns(Ok(Date(d)))
  {
    assert UnitSeconds('s') == Some(1);
    RelativeDateValue(c, n, 's', "");
  }

  lemma {:induction false} LexDateSpelled(c: Compiler, s: string, i: nat, t: Token)
    requires NumericOnAscii(c.host) && t.Date? && Spellable(c, t)
    requires Occurs(s, i, Spell(c, t))
    ensures i < |s| && LexAt(c, s, i) == Returns(Ok(Step(Some(t), i + |Spell(c, t)|)))
  {
    var body := DateBody(c, t);
    assert Spell(c, t) == ['\''] + body + ['\''];
    assert i < |s| && s[i] == '\'' && Delimited(s, i, '\'') == (body, i + |body| + 2) by {
      DelimitedSpelled(s, i, body, '\'');
      OccursIndex(s, i, Spell(c, t), 0);
    }
    assert ParseDate(c, body) == Returns(Ok(t)) by {
      DateBodyParses(c, t);
    }
    DateStep(c, s, i, body, t);
  }

  lemma DateStep(c: Compiler, s: string, i: nat, body: string, t: Token)
    requires i < |s| && s[i] == '\''
    requires Delimited(s, i, '\'').0 == body && ParseDate(c, body) == Returns(Ok(t))
    ensures LexAt(c, s, i) == Returns(Ok(Step(Some(t), Delimited(s, i, '\'').1)))
  {
  }

  lemma {:induction false} LexSymbolSpelled(c: Compiler, s: string, i: nat, t: Token)
    requires t.OpenBrace? || t.CloseBrace? || t.Less? || t.Greater? || t.Equal? || t.LE? || t.GE? || t.NE?
    requires Occurs(s, i, Spell(c, t) + " ")
    ensures i < |s| && LexAt(c, s, i) == Returns(Ok(Step(Some(t), i + |Spell(c, t)|)))
  {
    var w := Spell(c, t) + " ";
    OccursIndex(s, i, w, 0);
    OccursIndex(s, i, w, 1);
  }

  lemma {:induction false} LexDelimitedSpelled(c: Compiler, s: string, i: nat, t: Token)
    requires (t.String? || t.Regex?) && Spellable(c, t)
    requires Occurs(s, i, Spell(c, t))
    ensures i < |s| && LexAt(c, s, i) == Returns(Ok(Step(Some(t), i + |Spell(c, t)|)))
  {
    if t.String? {
      assert Spell(c, t) == ['"'] + t.text + ['"'];
      DelimitedSpelled(s, i, t.text, '"');
    } else {
      assert Spell(c, t) == ['/'] + t.pattern + ['/'];
      DelimitedSpelled(s, i, t.pattern, '/');
    }
    OccursIndex(s, i, Spell(c, t), 0);
  }

  /** The step over one spelled token and the space after it, which ends
      before `next`. */
  lemma {:induction false} LexSpelled(c: Compiler, s: string, i: nat, t: Token, next: nat)
    requires NumericOnAscii(c.host) && Spellable(c, t)
    requires Occurs(s, i, Spell(c, t) + " ") && next == i + |Spell(c, t)| + 1
    ensures TokenizeFrom(c, s, i) == Cons(Some(t), TokenizeFrom(c, s, next))
  {
    if t.Number? {
      LexNumberSpelled(c, s, i, t.value);
      TokenStep(c, s, i, t, next);
    } else {
      LexSpelledOther(c, s, i, t, next - 1, next);
    }
  }

  lemma {:induction false} LexSpelledOther(c: Compiler, s: string, i: nat, t: Token, e: nat, next: nat)
    requires NumericOnAscii(c.host) && !t.Number? && Spellable(c, t)
    requires Occurs(s, i, Spell(c, t) + " ") && e == i + |Spell(c, t)| && next == e + 1
    ensures TokenizeFrom(c, s, i) == Cons(Some(t), TokenizeFrom(c, s, next))
  {
    OccursSplit(s, i, Spell(c, t), " ");
    OccursIndex(s, e, " ", 0);
    LexOtherSpelled(c, s, i, t);
    TokenStep(c, s, i, t, e);
    SpaceStep(c, s, e);
  }

  /** Any spelled token but a number is read up to its last character. */
  lemma {:induction false} LexOtherSpelled(c: Compiler, s: string, i: nat, t: Token)
    requires NumericOnAscii(c.host) && Spellable(c, t) && !t.Number?
    requires Occurs(s, i, Spell(c, t) + " ")
    ensures i < |s| && LexAt(c, s, i) == Returns(Ok(Step(Some(t), i + |Spell(c, t)|)))
  {
    OccursSplit(s, i, Spell(c, t), " ");
    if t.WHERE? || t.AND? || t.OR? || t.DESC? || t.ASC? || t.Identifier? {
      LexWordSpelled(c, s, i, t);
    } else if t.String? || t.Regex? {
      LexDelimitedSpelled(c, s, i, t);
    } else if t.Date? {
      LexDateSpelled(c, s, i, t);
    } else {
      LexSymbolSpelled(c, s, i, t);
    }
  }

  /** A delimited text without its delimiter is read back whole. */
  lemma DelimitedSpelled(s: string, i: nat, x: string, d: char)
    requires d !in x
    requires Occurs(s, i, [d] + x + [d])
    ensures i < |s| && Delimited(s, i, d) == (x, i + |x| + 2)
  {
    OccursSplit(s, i, [d] + x, [d]);
    OccursSplit(s, i, [d], x);
    OccursIndex(s, i + 1 + |x|, [d], 0);
    forall k | i + 1 <= k < i + 1 + |x| ensures s[k] != d {
      OccursIndex(s, i + 1, x, k - i - 1);
    }
    ScanForUnique(s, i + 1, d, i + 1 + |x|);
    OccursSlice(s, i + 1, x);
  }

  /** A spelled stretch is its first token's spelling, a space, and the
      spelling of the rest. */
  lemma SpelledSplit(c: Compiler, s: string, i: nat, ts: seq<Token>, more: string)
    requires ts != [] && Occurs(s, i, SpellAll(c, ts) + more)
    ensures Occurs(s, i, Spell(c, ts[0]) + " ")
    ensures Occurs(s, i + |Spell(c, ts[0])| + 1, SpellAll(c, ts[1..]) + more)
    ensures |SpellAll(c, ts)| == |Spell(c, ts[0])| + 1 + |SpellAll(c, ts[1..])|
  {
    var head := Spell(c, ts[0]) + " ";
    var rest := SpellAll(c, ts[1..]);
    assert SpellAll(c, ts) == head + rest;
    assert SpellAll(c, ts) + more == head + (rest + more) by {
      AppendAssoc(head, rest, more);
    }
    OccursSplit(s, i, head, rest + more);
  }

  /** One spelled token in front of tokens already read. */
  lemma StepThen(c: Compiler, s: string, i: nat, t: Token, rest: seq<Token>, next: nat)
    requires NumericOnAscii(c.host) && Spellable(c, t)
    requires Occurs(s, i, Spell(c, t) + " ") && next == i + |Spell(c, t)| + 1
    requires TokenizeFrom(c, s, next) == Returns(Ok(rest))
    ensures TokenizeFrom(c, s, i) == Returns(Ok([t] + rest))
  {
    LexSpelled(c, s, i, t, next);
  }

  /** A spelled suffix of a program is read back as the tokens it spells. */
  lemma {:induction false} TokenizeSpelledFrom(c: Compiler, s: string, i: nat, ts: seq<Token>)
    requires NumericOnAscii(c.host)
    requires forall k :: 0 <= k < |ts| ==> Spellable(c, ts[k])
    requires Occurs(s, i, SpellAll(c, ts)) && i + |SpellAll(c, ts)| == |s|
    ensures TokenizeFrom(c, s, i) == Returns(Ok(ts))
    decreases |ts|
  {
    if ts != [] {
      var j := SpelledNext(c, s, i, ts);
      TailSpellable(c, ts);
      TokenizeSpelledFrom(c, s, j, ts[1..]);
      StepFirst(c, s, i, ts, j);
    }
  }

  /** The first of several spelled tokens in front of the others, already
      read. */
  lemma StepFirst(c: Compiler, s: string, i: nat, ts: seq<Token>, j: nat)
    requires NumericOnAscii(c.host) && ts != [] && forall k :: 0 <= k < |ts| ==> Spellable(c, ts[k])
    requires Occurs(s, i, Spell(c, ts[0]) + " ") && j == i + |Spell(c, ts[0])| + 1
    requires TokenizeFrom(c, s, j) == Returns(Ok(ts[1..]))
    ensures TokenizeFrom(c, s, i) == Returns(Ok(ts))
  {
    assert [ts[0]] + ts[1..] == ts;
    StepThen(c, s, i, ts[0], ts[1..], j);
  }

  /** A spelled stretch that ends the program: its first token's spelling
      and a space, then a spelled stretch that ends the program. */
  lemma SpelledNext(c: Compiler, s: string, i: nat, ts: seq<Token>) returns (j: nat)
    requires ts != [] && Occurs(s, i, SpellAll(c, ts)) && i + |SpellAll(c, ts)| == |s|
    ensures j == i + |Spell(c, ts[0])| + 1
    ensures Occurs(s, i, Spell(c, ts[0]) + " ")
    ensures Occurs(s, j, SpellAll(c, ts[1..])) && j + |SpellAll(c, ts[1..])| == |s|
  {
    j := i + |Spell(c, ts[0])| + 1;
    assert SpellAll(c, ts) + "" == SpellAll(c, ts);
    assert SpellAll(c, ts[1..]) + "" == SpellAll(c, ts[1..]);
    SpelledSplit(c, s, i, ts, "");
  }

  /** Tokens that can all be spelled still can after the first. */
  lemma TailSpellable(c: Compiler, ts: seq<Token>)
    requires ts != [] && forall k :: 0 <= k < |ts| ==> Spellable(c, ts[k])
    ensures forall k :: 0 <= k < |ts[1..]| ==> Spellable(c, ts[1..][k])
  {
    forall k | 0 <= k < |ts[1..]| ensures Spellable(c, ts[1..][k]) {
      assert ts[1..][k] == ts[k + 1];
    }
  }

  /** The same, for a spelled stretch followed by a number that ends the
      program. */
  lemma {:induction false} TokenizeSpelledThenNumber(c: Compiler, s: string, i: nat, ts: seq<Token>, n: nat)
    requires NumericOnAscii(c.host)
    requires forall k :: 0 <= k < |ts| ==> Spellable(c, ts[k])
    requires Occurs(s, i, SpellAll(c, ts) + NatToDigits(n))
    requires i + |SpellAll(c, ts)| + |NatToDigits(n)| == |s|
    ensures TokenizeFrom(c, s, i) == Returns(Ok(ts + [Number(n)]))
    decreases |ts|
  {
    if ts == [] {
      assert SpellAll(c, ts) + NatToDigits(n) == NatToDigits(n);
      FinalNumber(c, s, i, n);
      assert ts + [Number(n)] == [Number(n)];
    } else {
      var j := SpelledNextNumber(c, s, i, ts, n);
      TailSpellable(c, ts);
      TokenizeSpelledThenNumber(c, s, j, ts[1..], n);
      StepFirstThen(c, s, i, ts, [Number(n)], j);
    }
  }

  /** `SpelledNext` for a spelled stretch followed by a number that ends
      the program. */
  lemma SpelledNextNumber(c: Compiler, s: string, i: nat, ts: seq<Token>, n: nat) returns (j: nat)
    requires ts != [] && Occurs(s, i, SpellAll(c, ts) + NatToDigits(n))
    requires i + |SpellAll(c, ts)| + |NatToDigits(n)| == |s|
    ensures j == i + |Spell(c, ts[0])| + 1
    ensures Occurs(s, i, Spell(c, ts[0]) + " ")
    ensures Occurs(s, j, SpellAll(c, ts[1..]) + NatToDigits(n))
    ensures j + |SpellAll(c, ts[1..])| + |NatToDigits(n)| == |s|
  {
    j := i + |Spell(c, ts[0])| + 1;
    SpelledSplit(c, s, i, ts, NatToDigits(n));
  }

  /** `StepFirst` with more tokens read after the spelled ones. */
  lemma StepFirstThen(c: Compiler, s: string, i: nat, ts: seq<Token>, more: seq<Token>, j: nat)
    requires NumericOnAscii(c.host) && ts != [] && Spellable(c, ts[0])
    requires Occurs(s, i, Spell(c, ts[0]) + " ") && j == i + |Spell(c, ts[0])| + 1
    requires TokenizeFrom(c, s, j) == Returns(Ok(ts[1..] + more))
    ensures TokenizeFrom(c, s, i) == Returns(Ok(ts + more))
  {
    HeadTail(ts, more);
    StepThen(c, s, i, ts[0], ts[1..] + more, j);
  }

  /** The lexer reads a spelled program back as the tokens it spells. */
  lemma TokenizeSpelled(c: Compiler, ts: seq<Token>)
    requires NumericOnAscii(c.host)
    requires forall k :: 0 <= k < |ts| ==> Spellable(c, ts[k])
    ensures Tokenize(c, SpellAll(c, ts)) == Returns(Ok(ts))
  {
    TokenizeSpelledFrom(c, SpellAll(c, ts), 0, ts);
  }

  /** A number consumes the character after it unread, so `1)` is just the
      number. */
  lemma NumberSwallowsNext(c: Compiler, s: string, i: nat, n: nat, x: char)
    requires NumericOnAscii(c.host) && x < 128 as char && !IsDigit(x)
    requires Occurs(s, i, NatToDigits(n) + [x])
    ensures TokenizeFrom(c, s, i) == Cons(Some(Number(n)), TokenizeFrom(c, s, i + |NatToDigits(n)| + 1))
  {
    var next := i + |NatToDigits(n)| + 1;
    NumberThenChar(c, s, i, n, x, next - 1, next);
    TokenStep(c, s, i, Number(n), next);
  }

  /** The lexer's step over a number and the character after it, which
      ends before `next`. */
  lemma NumberThenChar(c: Compiler, s: string, i: nat, n: nat, x: char, e: nat, next: nat)
    requires NumericOnAscii(c.host) && x < 128 as char && !IsDigit(x)
    requires Occurs(s, i, NatToDigits(n) + [x]) && e == i + |NatToDigits(n)| && next == e + 1
    ensures i < |s| && LexAt(c, s, i) == Returns(Ok(Step(Some(Number(n)), next)))
  {
    assert Occurs(s, i, NatToDigits(n)) && e < |s| && s[e] == x by {
      OccursSplit(s, i, NatToDigits(n), [x]);
      OccursIndex(s, e, [x], 0);
    }
    assert i < |s| && IsDigit(s[i]) && ParseNumeric(c, s, i) == Ok((n, e)) by {
      NumericRun(c, s, i, n);
    }
    NumberStep(c, s, i, n, e);
  }


  /** A number at the very end of the program. */
  lemma {:induction false} FinalNumber(c: Compiler, s: string, i: nat, n: nat)
    requires NumericOnAscii(c.host)
    requires Occurs(s, i, NatToDigits(n)) && i + |NatToDigits(n)| == |s|
    ensures TokenizeFrom(c, s, i) == Returns(Ok([Number(n)]))
  {
    assert i < |s| && IsDigit(s[i]) && ParseNumeric(c, s, i) == Ok((n, |s|)) by {
      NumericRun(c, s, i, n);
    }
    assert LexAt(c, s, i) == Returns(Ok(Step(Some(Number(n)), |s|))) by {
      NumberStep(c, s, i, n, |s|);
    }
    TokenStep(c, s, i, Number(n), |s|);
    assert TokenizeFrom(c, s, |s|) == Returns(Ok([]));
    assert [Number(n)] + [] == [Number(n)];
  }
}
