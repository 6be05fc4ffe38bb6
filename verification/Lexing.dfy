/** token.c: the part of yylex that reads words, quoted strings and backslash escapes outside
    arithmetic.  A character that starts anything else is left to the rest of the lexer. */
module Lexing {
  import opened CStrings
  import EnvNames

  datatype WordState = NW | RW | KW

  /** The input that is left, what the last token was, and whether = may belong to a word. */
  datatype State = State(rest: CString, w: WordState, skipequals: bool, skipdual: bool)

  datatype Token =
    | Word(text: CString)
    | QWord(text: CString)
    | Keyword(text: CString)
    | AtSign
    | Caret
    | EndFile
    | ScanError
    | Elsewhere

  const QUOTE: Byte := '\'' as int
  const BACKSLASH: Byte := '\\' as int
  const CARET: Byte := '^' as int
  const EQUALS: Byte := '=' as int
  const NEWLINE: Byte := 10

  function Bytes(s: string): (r: CString)
    requires forall i :: 0 <= i < |s| ==> 0 < s[i] as int < 256
    ensures |r| == |s| && forall i :: 0 <= i < |s| ==> r[i] == s[i] as int
  {
    seq(|s|, i requires 0 <= i < |s| && 0 < s[i] as int < 256 => s[i] as int)
  }

  predicate Blank(c: int) {
    c == ' ' as int || c == 9
  }

  /** The table nw: bytes that end a word. */
  predicate NonWord(c: int) {
    || c == 0 || c == 9 || c == 10 || c == ' ' as int || c == '!' as int
    || '#' as int <= c <= '$' as int || '&' as int <= c <= ')' as int
    || ';' as int <= c <= '>' as int || c == '\\' as int || c == '^' as int
    || c == '`' as int || '{' as int <= c <= '}' as int
  }

  /** skip: an equals sign that does not start => and may be part of a word. */
  predicate Skips(flag: bool, rest: CString)
    requires rest != []
  {
    flag && rest[0] == EQUALS && At(rest, 1) != '>' as int
  }

  predicate InWord(flag: bool, rest: CString)
    requires rest != []
  {
    !NonWord(rest[0]) || Skips(flag, rest)
  }

  function WordLength(rest: CString, skipequals: bool): (n: nat)
    ensures n <= |rest|
  {
    if rest == [] || !InWord(skipequals, rest) then 0 else 1 + WordLength(rest[1..], skipequals)
  }

  function Classify(s: CString): Token {
    if s == Bytes("@") then AtSign
    else if s == Bytes("~") || s == Bytes("fn") || s == Bytes("for") || s == Bytes("local") || s == Bytes("let")
         || s == Bytes("~~") || s == Bytes("%closure") then Keyword(s)
    else Word(s)
  }

  /** The text up to the closing quote, and what follows it.  Two quotes stand for one. */
  function Quoted(rest: CString): (r: Option<(CString, CString)>)
    ensures r.Some? ==> |r.value.1| < |rest|
  {
    if rest == [] then None
    else if rest[0] != QUOTE then Before([rest[0]], Quoted(rest[1..]))
    else if At(rest, 1) == QUOTE then Before([QUOTE], Quoted(rest[2..]))
    else Some(([], rest[1..]))
  }

  function Before(c: CString, r: Option<(CString, CString)>): Option<(CString, CString)> {
    if r.None? then None else Some((c + r.value.0, r.value.1))
  }

  predicate OctalDigit(c: int) {
    '0' as int <= c <= '7' as int
  }

  predicate HexDigit(c: int) {
    EnvNames.IsDigit(c) || 'a' as int <= c <= 'f' as int || 'A' as int <= c <= 'F' as int
  }

  function HexValue(c: int): nat
    requires HexDigit(c)
  {
    if EnvNames.IsDigit(c) then c - '0' as int
    else if 'a' as int <= c then c - 'a' as int + 10
    else c - 'A' as int + 10
  }

  function Octal(n: nat, rest: CString): (r: (nat, CString))
    ensures |r.1| <= |rest|
    decreases |rest|
  {
    if rest != [] && OctalDigit(rest[0]) then Octal(n * 8 + rest[0] - '0' as int, rest[1..]) else (n, rest)
  }

  function Hexadecimal(n: nat, rest: CString): (r: (nat, CString))
    ensures |r.1| <= |rest|
    decreases |rest|
  {
    if rest != [] && HexDigit(rest[0]) then Hexadecimal(n * 16 + HexValue(rest[0]), rest[1..]) else (n, rest)
  }

  /** A number stored in a char; zero ends the string. */
  function Stored(n: nat): CString {
    if n % 256 == 0 then [] else [n % 256]
  }

  function Named(c: Byte): Option<Byte> {
    if c == 'a' as int then Some(7)
    else if c == 'b' as int then Some(8)
    else if c == 'e' as int then Some(27)
    else if c == 'f' as int then Some(12)
    else if c == 'n' as int then Some(10)
    else if c == 'r' as int then Some(13)
    else if c == 't' as int then Some(9)
    else None
  }

  /** What follows a backslash that is no line continuation; None is a bad escape. */
  function Escaped(rest: CString): (r: Option<(CString, CString)>)
    requires rest != []
    ensures r.Some? ==> |r.value.1| <= |rest|
  {
    var c := rest[0];
    if Named(c).Some? then Some(([Named(c).value], rest[1..]))
    else if c == 'x' as int || c == 'X' as int then
      var (n, left) := Hexadecimal(0, rest[1..]);
      if n == 0 then None else Some((Stored(n), left))
    else if OctalDigit(c) then
      var (n, left) := Octal(0, rest);
      if n == 0 then None else Some((Stored(n), left))
    else if EnvNames.IsAlpha(c) || EnvNames.IsDigit(c) then None
    else Some(([c], rest[1..]))
  }

  /** A free caret goes before a word that touches the last one. */
  function FreeCaret(st: State): (Token, State) {
    (Caret, st.(w := NW))
  }

  function QuotedWord(st: State, r: Option<(CString, CString)>): (Token, State) {
    if r.None? then (ScanError, st)
    else (QWord(r.value.0), State(r.value.1, RW, true, st.skipdual))
  }

  function ReadWord(st: State): (Token, State)
    requires st.rest != []
  {
    var n := 1 + WordLength(st.rest[1..], st.skipequals);
    var token := Classify(st.rest[..n]);
    (token, State(st.rest[n..], if token.Word? then RW else KW, true, st.skipdual))
  }

  /** Blanks are over. */
  function LexHere(st: State): (Token, State)
    requires st.rest != []
  {
    var c := st.rest[0];
    if InWord(st.skipdual, st.rest) then if st.w != NW then FreeCaret(st) else ReadWord(st)
    else if c == QUOTE then if st.w != NW then FreeCaret(st) else QuotedWord(st, Quoted(st.rest[1..]))
    else if c == BACKSLASH then
      if |st.rest| == 1 then (ScanError, st)
      else if st.w != NW then FreeCaret(st)
      else QuotedWord(st, Escaped(st.rest[1..]))
    else if c == CARET then (Caret, st.(rest := st.rest[1..], w := NW))
    else (Elsewhere, st)
  }

  /** A continued line is one more blank. */
  function BlanksAt(rest: CString): nat {
    if Blank(At(rest, 0)) then 1
    else if At(rest, 0) == BACKSLASH && At(rest, 1) == NEWLINE then 2
    else 0
  }

  function Lex(st: State): (Token, State)
    decreases |st.rest|
  {
    if st.rest == [] then (EndFile, st)
    else
      var n := BlanksAt(st.rest);
      if n > 0 then Lex(st.(rest := st.rest[n..], w := NW)) else LexHere(st)
  }

  class Lexer {
    const input: CString
    var pos: nat
    var w: WordState
    var skipequals: bool
    var skipdual: bool

    constructor (input: CString)
      ensures pos == 0 && w == NW && !skipequals && !skipdual && this.input == input
    {
      this.input := input;
      pos, w, skipequals, skipdual := 0, NW, false, false;
    }

    ghost predicate Valid()
      reads this
    {
      pos <= |input|
    }

    ghost function StateOf(): State
      reads this
      requires Valid()
    {
      State(input[pos..], w, skipequals, skipdual)
    }

    /** skip, with the character at pos. */
    method Skip(dual: bool) returns (r: bool)
      requires pos < |input|
      ensures r == Skips(if dual then skipdual else skipequals, input[pos..])
    {
      var skipeq := if dual then skipdual else skipequals;
      if !skipeq || input[pos] != EQUALS {
        return false;
      }
      r := At(input, pos + 1) != '>' as int;
    }

    /** The character at pos goes on with a word. */
    method More() returns (r: bool)
      requires Valid()
      ensures r == (pos < |input| && InWord(skipequals, input[pos..]))
    {
      if pos == |input| {
        return false;
      }
      if !NonWord(input[pos]) {
        return true;
      }
      r := Skip(false);
    }

    /** A word starts at pos. */
    method LexWord() returns (token: Token)
      requires Valid() && pos < |input|
      modifies this
      ensures Valid() && (token, StateOf()) == ReadWord(old(StateOf()))
    {
      hide InWord, Classify, WordLength, ReadWord;
      ghost var start := input[pos..];
      var buf: CString := [input[pos]];
      pos := pos + 1;
      assert input[pos..] == start[1..];
      var more := More();
      while more
        invariant 1 <= |buf| <= |start| && pos == old(pos) + |buf| <= |input| && buf == start[..|buf|]
        invariant more == (pos < |input| && InWord(skipequals, input[pos..]))
        invariant |buf| + WordLength(input[pos..], skipequals) == 1 + WordLength(start[1..], skipequals)
        invariant skipequals == old(skipequals) && skipdual == old(skipdual)
        decreases |input| - pos
      {
        WordGoesOn(input[pos..], skipequals);
        assert input[pos..][1..] == input[pos + 1..];
        buf := buf + [input[pos]];
        pos := pos + 1;
        more := More();
      }
      WordEnds(input[pos..], skipequals);
      assert input[pos..] == start[|buf|..];
      WordRead(old(StateOf()), |buf|);
      token := Classify(buf);
      w := if token.Word? then RW else KW;
      skipequals := true;
    }

    /** After an opening quote. */
    method LexQuoted() returns (token: Token)
      requires Valid()
      modifies this
      ensures Valid() && token == QuotedWord(old(StateOf()), Quoted(old(input[pos..]))).0
      ensures token != ScanError ==> StateOf() == QuotedWord(old(StateOf()), Quoted(old(input[pos..]))).1
    {
      hide Quoted, Before;
      ghost var start := input[pos..];
      var buf: CString := [];
      w := RW;
      BeforeNothing(Quoted(start));
      while !(At(input, pos) == QUOTE && At(input, pos + 1) != QUOTE)
        invariant pos <= |input| && w == RW && skipdual == old(skipdual)
        invariant Quoted(start) == Before(buf, Quoted(input[pos..]))
        decreases |input| - pos
      {
        QuotedStep(input[pos..], buf);
        if pos == |input| {
          w := NW;
          return ScanError;
        }
        if input[pos] == QUOTE {
          assert input[pos..][2..] == input[pos + 2..];
          pos := pos + 1;
        } else {
          assert input[pos..][1..] == input[pos + 1..];
        }
        buf := buf + [input[pos]];
        pos := pos + 1;
      }
      QuotedEnd(input[pos..], buf);
      assert input[pos..][1..] == input[pos + 1..];
      pos := pos + 1;
      skipequals := true;
      token := QWord(buf);
    }

    /** The digits of an octal or hexadecimal escape, read onto n. */
    method LexNumber(base8: bool, n0: nat) returns (n: nat)
      requires Valid()
      modifies `pos
      ensures Valid()
      ensures (n, input[pos..]) == if base8 then Octal(n0, old(input[pos..])) else Hexadecimal(n0, old(input[pos..]))
    {
      hide HexDigit, HexValue;
      n := n0;
      while if base8 then OctalDigit(At(input, pos)) else HexDigit(At(input, pos))
        invariant pos <= |input|
        invariant base8 ==> Octal(n, input[pos..]) == Octal(n0, old(input[pos..]))
        invariant !base8 ==> Hexadecimal(n, input[pos..]) == Hexadecimal(n0, old(input[pos..]))
        decreases |input| - pos
      {
        DigitIsNoTerminator();
        assert input[pos..][1..] == input[pos + 1..];
        n := if base8 then n * 8 + input[pos] - '0' as int else n * 16 + HexValue(input[pos]);
        pos := pos + 1;
      }
    }

    /** After a backslash that does not continue the line. */
    method LexEscape() returns (token: Token)
      requires Valid() && pos < |input|
      modifies this
      ensures Valid() && token == QuotedWord(old(StateOf()), Escaped(old(input[pos..]))).0
      ensures token != ScanError ==> StateOf() == QuotedWord(old(StateOf()), Escaped(old(input[pos..]))).1
    {
      hide Octal, Hexadecimal, HexDigit;
      w := RW;
      var c := input[pos];
      assert input[pos..][1..] == input[pos + 1..];
      var buf: CString;
      if Named(c).Some? {
        buf := [Named(c).value];
        pos := pos + 1;
      } else if c == 'x' as int || c == 'X' as int {
        pos := pos + 1;
        var n := LexNumber(false, 0);
        if n == 0 {
          return ScanError;
        }
        buf := Stored(n);
      } else if OctalDigit(c) {
        var n := LexNumber(true, 0);
        if n == 0 {
          return ScanError;
        }
        buf := Stored(n);
      } else {
        if EnvNames.IsAlpha(c) || EnvNames.IsDigit(c) {
          return ScanError;
        }
        buf := [c];
        pos := pos + 1;
      }
      skipequals := true;
      token := QWord(buf);
    }

    /** yylex outside arithmetic and not after a dollar sign. */
    method Yylex() returns (token: Token)
      requires Valid()
      modifies this
      ensures Valid() && token == Lex(old(StateOf())).0
      ensures token != ScanError ==> StateOf() == Lex(old(StateOf())).1
    {
      hide Lex, LexHere, Blank;
      while Blank(At(input, pos)) || (At(input, pos) == BACKSLASH && At(input, pos + 1) == NEWLINE)
        invariant Valid() && Lex(StateOf()) == Lex(old(StateOf()))
        decreases |input| - pos
      {
        NoBlankAtEnd();
        var used := if Blank(At(input, pos)) then 1 else 2;
        BlankStep(StateOf(), used);
        assert input[pos..][used..] == input[pos + used..];
        pos := pos + used;
        w := NW;
      }
      NoBlank(StateOf());
      if pos == |input| {
        return EndFile;
      }
      token := LexOne();
    }

    method LexOne() returns (token: Token)
      requires Valid() && pos < |input|
      modifies this
      ensures Valid() && token == LexHere(old(StateOf())).0
      ensures token != ScanError ==> StateOf() == LexHere(old(StateOf())).1
    {
      hide ReadWord, Quoted, Escaped, InWord;
      assert input[pos..][1..] == input[pos + 1..];
      var c := input[pos];
      var word := WordStarts();
      if !word && c != QUOTE && c != BACKSLASH {
        token := Elsewhere;
        if c == CARET {
          pos := pos + 1;
          w := NW;
          token := Caret;
        }
        return;
      }
      if !word && c == BACKSLASH && pos + 1 == |input| {
        return ScanError;
      }
      if w != NW {
        w := NW;
        return Caret;
      }
      if word {
        token := LexWord();
      } else if c == QUOTE {
        pos := pos + 1;
        token := LexQuoted();
      } else {
        pos := pos + 1;
        token := LexEscape();
      }
    }

    method WordStarts() returns (r: bool)
      requires Valid() && pos < |input|
      ensures r == InWord(skipdual, input[pos..])
    {
      if !NonWord(input[pos]) {
        return true;
      }
      r := Skip(true);
    }
  }

  lemma DigitIsNoTerminator()
    ensures !OctalDigit(0) && !HexDigit(0)
  {}

  lemma WordGoesOn(rest: CString, flag: bool)
    requires rest != [] && InWord(flag, rest)
    ensures WordLength(rest, flag) == 1 + WordLength(rest[1..], flag)
  {}

  lemma NoBlankAtEnd()
    ensures !Blank(0)
  {}

  lemma BlankStep(st: State, used: nat)
    requires st.rest != [] && used == if Blank(st.rest[0]) then 1 else 2
    requires Blank(st.rest[0]) || (st.rest[0] == BACKSLASH && At(st.rest, 1) == NEWLINE)
    ensures Lex(st) == Lex(st.(rest := st.rest[used..], w := NW))
  {
    hide LexHere;
  }

  lemma NoBlank(st: State)
    requires !Blank(At(st.rest, 0)) && !(At(st.rest, 0) == BACKSLASH && At(st.rest, 1) == NEWLINE)
    ensures Lex(st) == if st.rest == [] then (EndFile, st) else LexHere(st)
  {
    hide LexHere;
  }

  lemma WordRead(st: State, n: nat)
    requires st.rest != [] && n == 1 + WordLength(st.rest[1..], st.skipequals)
    ensures n <= |st.rest| && var token := Classify(st.rest[..n]);
      ReadWord(st) == (token, State(st.rest[n..], if token.Word? then RW else KW, true, st.skipdual))
  {}

  lemma WordEnds(rest: CString, flag: bool)
    requires rest == [] || !InWord(flag, rest)
    ensures WordLength(rest, flag) == 0
  {}

  lemma QuotedStep(rest: CString, buf: CString)
    ensures rest == [] ==> Before(buf, Quoted(rest)) == None
    ensures rest != [] && rest[0] != QUOTE ==> Before(buf, Quoted(rest)) == Before(buf + [rest[0]], Quoted(rest[1..]))
    ensures rest != [] && rest[0] == QUOTE && At(rest, 1) == QUOTE ==> Before(buf, Quoted(rest)) == Before(buf + [QUOTE], Quoted(rest[2..]))
  {
    hide Before;
    BeforeNone(buf);
    if rest != [] {
      if rest[0] != QUOTE {
        BeforeTwice(buf, rest[0], Quoted(rest[1..]));
      } else if At(rest, 1) == QUOTE {
        BeforeTwice(buf, QUOTE, Quoted(rest[2..]));
      }
    }
  }

  lemma QuotedEnd(rest: CString, buf: CString)
    requires rest != [] && rest[0] == QUOTE && At(rest, 1) != QUOTE
    ensures Before(buf, Quoted(rest)) == Some((buf, rest[1..]))
  {
    assert buf + [] == buf;
  }

  lemma BeforeNone(buf: CString)
    ensures Before(buf, None) == None
  {}

  lemma BeforeNothing(r: Option<(CString, CString)>)
    ensures Before([], r) == r
  {
    if r.Some? {
      assert [] + r.value.0 == r.value.0;
    }
  }

  lemma BeforeTwice(buf: CString, c: Byte, r: Option<(CString, CString)>)
    ensures Before(buf, Before([c], r)) == Before(buf + [c], r)
  {
    if r.Some? {
      assert buf + ([c] + r.value.0) == buf + [c] + r.value.0;
    }
  }

  // ----- which word is read -----

  /** What cannot belong to a word, the blanks and the line's end included. */
  const ENDS: set<int> := {
    0, 9, 10, ' ' as int, '!' as int, '#' as int, '$' as int, '&' as int, '\'' as int, '(' as int, ')' as int, ';' as int,
    '<' as int, '=' as int, '>' as int, '\\' as int, '^' as int, '`' as int, '{' as int, '|' as int, '}' as int
  }

  const KEYWORDS: set<CString> := {
    Bytes("~"), Bytes("~~"), Bytes("fn"), Bytes("for"), Bytes("local"), Bytes("let"), Bytes("%closure")
  }

  /** = belongs to a word where the shell expects no assignment, unless it starts =>. */
  predicate EqualsInside(rest: CString, i: nat, flag: bool)
    requires i < |rest|
  {
    flag && rest[i] == EQUALS && At(rest, i + 1) != '>' as int
  }

  lemma EndsExactly(c: int)
    ensures NonWord(c) <==> c in ENDS
  {}

  lemma {:induction false} LongestWord(rest: CString, flag: bool)
    ensures var n := WordLength(rest, flag);
      && (forall i :: 0 <= i < n ==> !NonWord(rest[i]) || EqualsInside(rest, i, flag))
      && (n < |rest| ==> NonWord(rest[n]) && !EqualsInside(rest, n, flag))
    decreases |rest|
  {
    hide NonWord;
    if rest != [] && InWord(flag, rest) {
      var more := rest[1..];
      LongestWord(more, flag);
      var n := WordLength(rest, flag);
      forall i | 0 <= i < n ensures !NonWord(rest[i]) || EqualsInside(rest, i, flag) {
        if i > 0 {
          assert rest[i] == more[i - 1] && At(rest, i + 1) == At(more, i);
        }
      }
      assert n < |rest| ==> rest[n] == more[n - 1] && At(rest, n + 1) == At(more, n);
    }
  }

  lemma KeywordsExactly(s: CString)
    ensures Classify(s) == if s == Bytes("@") then AtSign else if s in KEYWORDS then Keyword(s) else Word(s)
  {
    hide Bytes;
  }

  /** Where a word starts, the longest one is read, and it is a keyword if it is one of those. */
  lemma WordExactly(st: State)
    requires st.rest != [] && st.rest[0] !in ENDS && st.w == NW
    ensures var (token, end) := Lex(st); var n := |st.rest| - |end.rest|;
      && 0 < n && end.rest == st.rest[n..]
      && (forall i :: 0 < i < n ==> st.rest[i] !in ENDS || EqualsInside(st.rest, i, st.skipequals))
      && (n < |st.rest| ==> st.rest[n] in ENDS && !EqualsInside(st.rest, n, st.skipequals))
      && token == (var text := st.rest[..n];
                   if text == Bytes("@") then AtSign else if text in KEYWORDS then Keyword(text) else Word(text))
  {
    hide NonWord, Classify, ENDS, KEYWORDS, Bytes;
    forall c: int ensures NonWord(c) <==> c in ENDS {
      EndsExactly(c);
    }
    NoBlanks(st);
    NoBlank(st);
    var rest := st.rest[1..];
    var n := 1 + WordLength(rest, st.skipequals);
    LongestWord(rest, st.skipequals);
    WordRead(st, n);
    KeywordsExactly(st.rest[..n]);
    forall i: nat | i < |rest| ensures EqualsInside(rest, i, st.skipequals) <==> EqualsInside(st.rest, i + 1, st.skipequals) {
      assert rest[i] == st.rest[i + 1] && At(rest, i + 1) == At(st.rest, i + 2);
    }
    forall i | 0 < i < n ensures st.rest[i] !in ENDS || EqualsInside(st.rest, i, st.skipequals) {
      assert rest[i - 1] == st.rest[i];
    }
    assert n < |st.rest| ==> rest[n - 1] == st.rest[n];
  }

  lemma NoBlanks(st: State)
    requires st.rest != [] && !NonWord(st.rest[0])
    ensures !Blank(st.rest[0]) && st.rest[0] != BACKSLASH
  {}

  // ----- what a backslash means -----

  const LOWER := "0123456789abcdef"
  const UPPER := "0123456789ABCDEF"

  /** c is the digit with value v. */
  predicate IsFigure(c: int, base: nat, v: nat) {
    v < base && v < 16 && (c == LOWER[v] as int || c == UPPER[v] as int)
  }

  predicate Figures(ds: CString, base: nat, vs: seq<nat>) {
    |ds| == |vs| && forall i :: 0 <= i < |ds| ==> IsFigure(ds[i], base, vs[i])
  }

  /** The number that these digits write. */
  function Positional(base: nat, vs: seq<nat>): nat {
    if vs == [] then 0 else Positional(base, vs[..|vs| - 1]) * base + vs[|vs| - 1]
  }

  /** No digit starts t. */
  predicate NoFigure(t: CString, base: nat) {
    t == [] || forall v :: 0 <= v < 16 ==> !IsFigure(t[0], base, v)
  }

  lemma FiguresExactly(c: int, v: nat)
    requires v < 16
    ensures IsFigure(c, 8, v) <==> OctalDigit(c) && c - '0' as int == v
    ensures IsFigure(c, 16, v) <==> HexDigit(c) && HexValue(c) == v
  {}

  lemma OctalFigure(c: int)
    requires OctalDigit(c)
    ensures IsFigure(c, 8, c - '0' as int)
  {
    FiguresExactly(c, c - '0' as int);
  }

  lemma HexFigure(c: int)
    requires HexDigit(c)
    ensures HexValue(c) < 16 && IsFigure(c, 16, HexValue(c))
  {
    FiguresExactly(c, HexValue(c));
  }

  lemma NumberEnds(t: CString)
    ensures NoFigure(t, 8) ==> t == [] || !OctalDigit(t[0])
    ensures NoFigure(t, 16) ==> t == [] || !HexDigit(t[0])
  {
    hide IsFigure;
    if t != [] && OctalDigit(t[0]) {
      OctalFigure(t[0]);
    }
    if t != [] && HexDigit(t[0]) {
      HexFigure(t[0]);
    }
  }

  /** All the digits are read, as the number they write. */
  lemma {:induction false} NumberRead(base8: bool, vs: seq<nat>, done: seq<nat>, ds: CString, t: CString)
    requires var base := if base8 then 8 else 16; Figures(ds, base, vs) && NoFigure(t, base)
    ensures var base := if base8 then 8 else 16;
      (if base8 then Octal(Positional(8, done), ds + t) else Hexadecimal(Positional(16, done), ds + t)) ==
        (Positional(base, done + vs), t)
    decreases |ds|
  {
    hide IsFigure, Positional, OctalDigit, HexDigit, HexValue, NoFigure;
    if ds == [] {
      assert ds + t == t && done + vs == done;
      NumberEnds(t);
    } else {
      var c, v := ds[0], vs[0];
      assert IsFigure(c, if base8 then 8 else 16, v);
      FigureBelow(c, if base8 then 8 else 16, v);
      FiguresExactly(c, v);
      assert (ds + t)[1..] == ds[1..] + t && (ds + t)[0] == c;
      assert done + [v] + vs[1..] == done + vs;
      NumberRead(base8, vs[1..], done + [v], ds[1..], t);
      PositionalMore(if base8 then 8 else 16, done, v);
    }
  }

  lemma FigureBelow(c: int, base: nat, v: nat)
    requires IsFigure(c, base, v)
    ensures v < 16
  {}

  lemma PositionalMore(base: nat, done: seq<nat>, v: nat)
    ensures Positional(base, done + [v]) == Positional(base, done) * base + v
  {
    assert (done + [v])[..|done|] == done;
  }

  /** A number after the backslash, or after an x, is the byte it writes; zero is refused.  A
      multiple of 256 is the terminator, and so an empty word. */
  lemma NumericEscape(base8: bool, mark: CString, vs: seq<nat>, ds: CString, t: CString)
    requires if base8 then mark == [] && ds != [] else mark == ['x' as int] || mark == ['X' as int]
    requires var base := if base8 then 8 else 16; Figures(ds, base, vs) && NoFigure(t, base)
    ensures var n := Positional(if base8 then 8 else 16, vs);
      Escaped(mark + ds + t) == if n == 0 then None else Some((if n % 256 == 0 then [] else [n % 256], t))
  {
    hide Octal, Hexadecimal, Positional, IsFigure;
    var rest := mark + ds + t;
    assert [] + vs == vs && [] + ds == ds;
    NumberRead(base8, vs, [], ds, t);
    PositionalNone(if base8 then 8 else 16);
    if base8 {
      FigureIsDigit(ds[0], vs[0]);
      assert rest == ds + t;
    } else {
      assert rest[1..] == ds + t;
    }
  }

  lemma PositionalNone(base: nat)
    ensures Positional(base, []) == 0
  {}

  lemma FigureIsDigit(c: int, v: nat)
    requires IsFigure(c, 8, v)
    ensures 48 <= c < 56
  {
    FiguresExactly(c, v);
  }

  /** The letters with a meaning of their own, as the bytes of ASCII they stand for. */
  const ESCAPES: map<char, int> := map['a' := 7, 'b' := 8, 'e' := 27, 'f' := 12, 'n' := 10, 'r' := 13, 't' := 9]

  /** Any other character after a backslash: a letter with a meaning, a letter or digit without
      one, which is refused, or anything else, which is itself. */
  lemma LetterEscape(c: Byte, t: CString)
    requires c !in {'x' as int, 'X' as int} && !(48 <= c < 56)
    ensures Escaped([c] + t) ==
      if c as char in ESCAPES then Some(([ESCAPES[c as char]], t))
      else if 56 <= c < 58 || 65 <= c < 91 || 97 <= c < 123 then None
      else Some(([c], t))
  {
    assert ([c] + t)[1..] == t;
  }
}
